/**
 * Properties of the walk that relate several of its steps: code outside the
 * project's files is never reported, registration does not depend on what
 * is reported, a prototype only registers, and a call is checked only
 * against functions registered before it.
 */
module WalkProperties {
  import opened Cursors
  import opened Diagnostics
  import opened Walk

  /** Every cursor of the subtree lies outside the files the project owns. */
  predicate Unowned(config: Config, c: Cursor)
    decreases c
  {
    && !Owned(config, c.location)
    && forall i :: 0 <= i < |c.children| ==> Unowned(config, c.children[i])
  }

  /** A subtree lying wholly outside the owned files adds no diagnostic. */
  lemma {:induction false} DispatchUnowned(config: Config, c: Cursor, st: WalkState)
    requires WellFormed(c) && Unowned(config, c)
    ensures Dispatch(config, c, st).diagnostics == st.diagnostics
    decreases c, 4, 0
  {
    match HandlerOf(c.kind)
    case Skip =>
    case PassThrough =>
      ChildrenUnowned(config, c, st);
    case HandleFunction =>
      BodiesUnowned(config, c, |c.children|, WalkState(st.functions + [c], st.diagnostics));
    case HandleBinary =>
      assert BinaryOwn(config, c) == [];
      ChildrenUnowned(config, c, WalkState(st.functions, st.diagnostics + BinaryOwn(config, c)));
    case HandleCall =>
      forall i | 1 <= i < |c.children|
        ensures !Owned(config, c.children[i].location)
      {
        assert Unowned(config, c.children[i]);
      }
      CallOwnUnowned(config, c, st.functions);
      ChildrenUnowned(config, c, WalkState(st.functions, st.diagnostics + CallOwn(config, c, st.functions)));
    case HandleVariable =>
      assert VariableOwn(config, c) == [];
      ChildrenUnowned(config, c, WalkState(st.functions, st.diagnostics + VariableOwn(config, c)));
    case HandleReturn =>
      assert ReturnOwn(config, c) == [];
      ChildrenUnowned(config, c, WalkState(st.functions, st.diagnostics + ReturnOwn(config, c)));
  }

  /**
   * The comparisons of a call whose arguments all lie outside the owned
   * files report nothing, wherever the call itself and its callee lie.
   */
  lemma CallOwnUnowned(config: Config, c: Cursor, functions: seq<Cursor>)
    requires forall i :: 1 <= i < |c.children| ==> !Owned(config, c.children[i].location)
    ensures CallOwn(config, c, functions) == []
  {
    var args := Arguments(c);
    forall i | 0 <= i < |args|
      ensures !Owned(config, args[i].location)
    {
      assert args[i] == c.children[i + 1];
    }
  }

  lemma {:induction false} ChildrenUnowned(config: Config, c: Cursor, st: WalkState)
    requires WellFormed(c) && Unowned(config, c)
    ensures Children(config, c, st).diagnostics == st.diagnostics
    decreases c, 2, 0
  {
    ChildrenPrefixUnowned(config, c, |c.children|, st);
  }

  lemma {:induction false} ChildrenPrefixUnowned(config: Config, c: Cursor, n: nat, st: WalkState)
    requires WellFormed(c) && Unowned(config, c) && n <= |c.children|
    ensures ChildrenPrefix(config, c, n, st).diagnostics == st.diagnostics
    decreases c, 1, n
  {
    if n > 0 {
      ChildrenPrefixUnowned(config, c, n - 1, st);
      DispatchUnowned(config, c.children[n - 1], ChildrenPrefix(config, c, n - 1, st));
    }
  }

  lemma {:induction false} BodiesUnowned(config: Config, c: Cursor, n: nat, st: WalkState)
    requires WellFormed(c) && Unowned(config, c) && n <= |c.children|
    ensures BodiesPrefix(config, c, n, st).diagnostics == st.diagnostics
    decreases c, 1, n
  {
    if n > 0 {
      BodiesUnowned(config, c, n - 1, st);
      var child := c.children[n - 1];
      if child.kind == CompoundStmt {
        ChildrenUnowned(config, child, BodiesPrefix(config, c, n - 1, st));
      }
    }
  }

  /**
   * What is registered depends neither on the include set nor on what was
   * reported before: two walks of the same tree from the same registry
   * register the same functions.
   */
  lemma {:induction false} DispatchRegistry(config: Config, config': Config, c: Cursor, st: WalkState, st': WalkState)
    requires WellFormed(c) && st.functions == st'.functions
    ensures Dispatch(config, c, st).functions == Dispatch(config', c, st').functions
    decreases c, 4, 0
  {
    match HandlerOf(c.kind)
    case Skip =>
    case PassThrough =>
      ChildrenRegistry(config, config', c, st, st');
    case HandleFunction =>
      BodiesRegistry(config, config', c, |c.children|,
        WalkState(st.functions + [c], st.diagnostics), WalkState(st'.functions + [c], st'.diagnostics));
    case HandleBinary =>
      ChildrenRegistry(config, config', c,
        WalkState(st.functions, st.diagnostics + BinaryOwn(config, c)),
        WalkState(st'.functions, st'.diagnostics + BinaryOwn(config', c)));
    case HandleCall =>
      ChildrenRegistry(config, config', c,
        WalkState(st.functions, st.diagnostics + CallOwn(config, c, st.functions)),
        WalkState(st'.functions, st'.diagnostics + CallOwn(config', c, st'.functions)));
    case HandleVariable =>
      ChildrenRegistry(config, config', c,
        WalkState(st.functions, st.diagnostics + VariableOwn(config, c)),
        WalkState(st'.functions, st'.diagnostics + VariableOwn(config', c)));
    case HandleReturn =>
      ChildrenRegistry(config, config', c,
        WalkState(st.functions, st.diagnostics + ReturnOwn(config, c)),
        WalkState(st'.functions, st'.diagnostics + ReturnOwn(config', c)));
  }

  lemma {:induction false} ChildrenRegistry(config: Config, config': Config, c: Cursor, st: WalkState, st': WalkState)
    requires WellFormed(c) && st.functions == st'.functions
    ensures Children(config, c, st).functions == Children(config', c, st').functions
    decreases c, 2, 0
  {
    ChildrenPrefixRegistry(config, config', c, |c.children|, st, st');
  }

  lemma {:induction false} ChildrenPrefixRegistry(config: Config, config': Config, c: Cursor, n: nat,
                                                  st: WalkState, st': WalkState)
    requires WellFormed(c) && n <= |c.children| && st.functions == st'.functions
    ensures ChildrenPrefix(config, c, n, st).functions == ChildrenPrefix(config', c, n, st').functions
    decreases c, 1, n
  {
    if n > 0 {
      ChildrenPrefixRegistry(config, config', c, n - 1, st, st');
      DispatchRegistry(config, config', c.children[n - 1],
        ChildrenPrefix(config, c, n - 1, st), ChildrenPrefix(config', c, n - 1, st'));
    }
  }

  lemma {:induction false} BodiesRegistry(config: Config, config': Config, c: Cursor, n: nat,
                                          st: WalkState, st': WalkState)
    requires WellFormed(c) && n <= |c.children| && st.functions == st'.functions
    ensures BodiesPrefix(config, c, n, st).functions == BodiesPrefix(config', c, n, st').functions
    decreases c, 1, n
  {
    if n > 0 {
      BodiesRegistry(config, config', c, n - 1, st, st');
      var child := c.children[n - 1];
      if child.kind == CompoundStmt {
        ChildrenRegistry(config, config', child, BodiesPrefix(config, c, n - 1, st), BodiesPrefix(config', c, n - 1, st'));
      }
    }
  }

  /** Children other than COMPOUND_STMT are never walked by `handle_function_definition`. */
  lemma {:induction false} BodiesWithoutCompound(config: Config, c: Cursor, n: nat, st: WalkState)
    requires WellFormed(c) && n <= |c.children|
    requires forall i :: 0 <= i < n ==> c.children[i].kind != CompoundStmt
    ensures BodiesPrefix(config, c, n, st) == st
    decreases n
  {
    if n > 0 {
      BodiesWithoutCompound(config, c, n - 1, st);
    }
  }

  /**
   * Only the COMPOUND_STMT children of a function are walked: two function
   * cursors whose children agree wherever either has a COMPOUND_STMT walk
   * to the same state, whatever their other children (parameters, for
   * instance) are.
   */
  lemma {:induction false} BodiesSeeOnlyCompound(config: Config, c: Cursor, c': Cursor, n: nat, st: WalkState)
    requires WellFormed(c) && WellFormed(c') && n <= |c.children| && n <= |c'.children|
    requires forall i :: 0 <= i < n ==>
      (c.children[i].kind == CompoundStmt || c'.children[i].kind == CompoundStmt ==> c.children[i] == c'.children[i])
    ensures BodiesPrefix(config, c, n, st) == BodiesPrefix(config, c', n, st)
    decreases n
  {
    if n > 0 {
      BodiesSeeOnlyCompound(config, c, c', n - 1, st);
    }
  }

  /**
   * A prototype (a FUNCTION_DECL without a COMPOUND_STMT child) is registered
   * like a definition, and nothing else happens: its parameters are not walked.
   */
  lemma PrototypeOnlyRegisters(config: Config, c: Cursor, st: WalkState)
    requires WellFormed(c)
    requires forall i :: 0 <= i < |c.children| ==> c.children[i].kind != CompoundStmt
    ensures WalkFunctionDefinition(config, c, st) == WalkState(st.functions + [c], st.diagnostics)
  {
    BodiesWithoutCompound(config, c, |c.children|, WalkState(st.functions + [c], st.diagnostics));
  }

  /**
   * A call is checked only against the registry as it stands when the call
   * is reached: if no function registered so far matches, the call adds
   * nothing of its own, whatever is registered later.
   */
  lemma UnregisteredCalleeUnchecked(config: Config, c: Cursor, st: WalkState)
    requires WellFormed(c)
    requires forall f :: f in st.functions ==> !StartsWith(f.displayName, Leaf(c).displayName + "(")
    ensures WalkCallExpression(config, c, st) == Children(config, c, st)
  {
    var name := Leaf(c).displayName;
    forall j | 0 <= j < |st.functions|
      ensures !StartsWith(st.functions[j].displayName, name + "(")
    {
      assert st.functions[j] in st.functions;
    }
    assert CallOwn(config, c, st.functions) == [];
    assert WalkState(st.functions, st.diagnostics + []) == st;
  }

  // ---------------------------------------------------------------------
  // Only genuine mismatches are reported
  // ---------------------------------------------------------------------

  /** Every diagnostic from position `from` on is an exact mismatch inside an owned file. */
  ghost predicate GenuineFrom(config: Config, ds: seq<Diagnostic>, from: nat)
  {
    forall j :: from <= j < |ds| ==> Genuine(config, ds[j])
  }

  /** A construct's own genuine diagnostics, followed by genuine ones, are all genuine. */
  lemma GenuineAfterOwn(config: Config, before: seq<Diagnostic>, own: seq<Diagnostic>, after: seq<Diagnostic>)
    requires forall d :: d in own ==> Genuine(config, d)
    requires before + own <= after && GenuineFrom(config, after, |before + own|)
    ensures GenuineFrom(config, after, |before|)
  {
    forall j | |before| <= j < |before + own|
      ensures Genuine(config, after[j])
    {
      assert after[j] == (before + own)[j] == own[j - |before|];
    }
  }

  /** Two stretches of genuine diagnostics make one. */
  lemma GenuineChain(config: Config, a: seq<Diagnostic>, b: seq<Diagnostic>, from: nat)
    requires a <= b && GenuineFrom(config, a, from) && GenuineFrom(config, b, |a|)
    ensures GenuineFrom(config, b, from)
  {
    forall j | from <= j < |a|
      ensures Genuine(config, b[j])
    {
      assert b[j] == a[j];
    }
  }

  /**
   * The walk reports only exact spelling mismatches inside owned files:
   * every diagnostic one child's handling appends has two different
   * spellings and a location whose absolute path is an available include.
   */
  lemma {:induction false} DispatchReportsOnlyMismatches(config: Config, c: Cursor, st: WalkState)
    requires WellFormed(c)
    ensures GenuineFrom(config, Dispatch(config, c, st).diagnostics, |st.diagnostics|)
    decreases c, 4, 0
  {
    var r := Dispatch(config, c, st);
    match HandlerOf(c.kind)
    case Skip =>
    case PassThrough =>
      ChildrenReportsOnlyMismatches(config, c, st);
    case HandleFunction =>
      BodiesReportOnlyMismatches(config, c, |c.children|, WalkState(st.functions + [c], st.diagnostics));
    case HandleBinary =>
      var own := BinaryOwn(config, c);
      ChildrenReportsOnlyMismatches(config, c, WalkState(st.functions, st.diagnostics + own));
      GenuineAfterOwn(config, st.diagnostics, own, r.diagnostics);
    case HandleCall =>
      var own := CallOwn(config, c, st.functions);
      ChildrenReportsOnlyMismatches(config, c, WalkState(st.functions, st.diagnostics + own));
      GenuineAfterOwn(config, st.diagnostics, own, r.diagnostics);
    case HandleVariable =>
      var own := VariableOwn(config, c);
      ChildrenReportsOnlyMismatches(config, c, WalkState(st.functions, st.diagnostics + own));
      GenuineAfterOwn(config, st.diagnostics, own, r.diagnostics);
    case HandleReturn =>
      var own := ReturnOwn(config, c);
      ChildrenReportsOnlyMismatches(config, c, WalkState(st.functions, st.diagnostics + own));
      GenuineAfterOwn(config, st.diagnostics, own, r.diagnostics);
  }

  /** The same for all the children of a cursor. */
  lemma {:induction false} ChildrenReportsOnlyMismatches(config: Config, c: Cursor, st: WalkState)
    requires WellFormed(c)
    ensures GenuineFrom(config, Children(config, c, st).diagnostics, |st.diagnostics|)
    decreases c, 2, 0
  {
    ChildrenPrefixReportsOnlyMismatches(config, c, |c.children|, st);
  }

  /** The same for the first `n` children. */
  lemma {:induction false} ChildrenPrefixReportsOnlyMismatches(config: Config, c: Cursor, n: nat, st: WalkState)
    requires WellFormed(c) && n <= |c.children|
    ensures GenuineFrom(config, ChildrenPrefix(config, c, n, st).diagnostics, |st.diagnostics|)
    decreases c, 1, n
  {
    if n > 0 {
      ChildrenPrefixReportsOnlyMismatches(config, c, n - 1, st);
      DispatchReportsOnlyMismatches(config, c.children[n - 1], ChildrenPrefix(config, c, n - 1, st));
      ChildrenPrefixGenuineStep(config, c, n, st);
    }
  }

  /** If the first `n - 1` children and child `n` each report only mismatches, so do the first `n`. */
  lemma ChildrenPrefixGenuineStep(config: Config, c: Cursor, n: nat, st: WalkState)
    requires WellFormed(c) && 0 < n <= |c.children|
    requires GenuineFrom(config, ChildrenPrefix(config, c, n - 1, st).diagnostics, |st.diagnostics|)
    requires GenuineFrom(config, Dispatch(config, c.children[n - 1], ChildrenPrefix(config, c, n - 1, st)).diagnostics,
      |ChildrenPrefix(config, c, n - 1, st).diagnostics|)
    ensures GenuineFrom(config, ChildrenPrefix(config, c, n, st).diagnostics, |st.diagnostics|)
  {
    GenuineChain(config, ChildrenPrefix(config, c, n - 1, st).diagnostics, ChildrenPrefix(config, c, n, st).diagnostics,
      |st.diagnostics|);
  }

  /** The same for the bodies a function definition walks. */
  lemma {:induction false} BodiesReportOnlyMismatches(config: Config, c: Cursor, n: nat, st: WalkState)
    requires WellFormed(c) && n <= |c.children|
    ensures GenuineFrom(config, BodiesPrefix(config, c, n, st).diagnostics, |st.diagnostics|)
    decreases c, 1, n
  {
    if n > 0 {
      var mid := BodiesPrefix(config, c, n - 1, st);
      BodiesReportOnlyMismatches(config, c, n - 1, st);
      var child := c.children[n - 1];
      if child.kind == CompoundStmt {
        ChildrenReportsOnlyMismatches(config, child, mid);
        GenuineChain(config, mid.diagnostics, BodiesPrefix(config, c, n, st).diagnostics, |st.diagnostics|);
      }
    }
  }

  /** A whole run reports only genuine mismatches. */
  lemma CheckReportsOnlyMismatches(config: Config, unit: Cursor)
    requires WellFormed(unit)
    ensures forall d :: d in Children(config, unit, WalkState([], [])).diagnostics ==> Genuine(config, d)
  {
    ChildrenReportsOnlyMismatches(config, unit, WalkState([], []));
  }
}
