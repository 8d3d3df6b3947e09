/**
 * The syntax tree the checker walks: a clang cursor as an immutable value,
 * plus the two ways the checker descends through first children
 * (`dive_if_unexposed_expression` and the `depth_first` helper of
 * `handle_call_expression`) and the string predicates the checker uses.
 */
module Cursors {

  /** The cursor kinds the checker distinguishes; every other clang kind is `OtherKind`. */
  datatype Kind =
    | TypedefDecl
    | StructDecl
    | EnumDecl
    | IntegerLiteral
    | FloatingLiteral
    | ImaginaryLiteral
    | StringLiteral
    | CharacterLiteral
    | CxxBoolLiteralExpr
    | FunctionDecl
    | BinaryOperator
    | CallExpr
    | VarDecl
    | ReturnStmt
    | ParmDecl
    | CompoundStmt
    | UnexposedExpr
    | OtherKind

  /** A source location: the file name as clang reports it, line and column. */
  datatype Location = Location(file: string, line: nat, column: nat)

  /**
   * One cursor: its kind, display name, the spelling of its type and of the
   * canonical type, its location and its children in order.
   */
  datatype Cursor = Cursor(
    kind: Kind,
    displayName: string,
    spelling: string,
    canonical: string,
    location: Location,
    children: seq<Cursor>)

  /** `r` is reached from `c` by following first children zero or more times. */
  ghost predicate FirstDescendant(c: Cursor, r: Cursor)
    decreases c
  {
    r == c || (c.children != [] && FirstDescendant(c.children[0], r))
  }

  /**
   * `r` is reached from `c` by following first children, and every cursor
   * left behind on the way is an UNEXPOSED_EXPR.
   */
  ghost predicate UnexposedChain(c: Cursor, r: Cursor)
    decreases c
  {
    r == c || (c.kind == UnexposedExpr && c.children != [] && UnexposedChain(c.children[0], r))
  }

  /** Where unwrapping stops: at a cursor that is not UNEXPOSED_EXPR, or one without children. */
  predicate Unwrapped(c: Cursor)
  {
    c.kind != UnexposedExpr || c.children == []
  }

  /** `dive_if_unexposed_expression`: strip UNEXPOSED_EXPR wrappers through their first child. */
  function Unwrap(c: Cursor): (r: Cursor)
    ensures Unwrapped(r)
    ensures UnexposedChain(c, r)
    ensures c.kind != UnexposedExpr ==> r == c
    decreases c
  {
    if c.kind == UnexposedExpr && c.children != [] then Unwrap(c.children[0]) else c
  }

  /** The unwrapped cursor is the only stopping point along the chain of wrappers. */
  lemma {:induction false} UnwrapUnique(c: Cursor, r: Cursor)
    requires UnexposedChain(c, r) && Unwrapped(r)
    ensures r == Unwrap(c)
    decreases c
  {
    if r != c {
      UnwrapUnique(c.children[0], r);
    }
  }

  /** Unwrapping twice is unwrapping once. */
  lemma UnwrapIdempotent(c: Cursor)
    ensures Unwrap(Unwrap(c)) == Unwrap(c)
  {
  }

  /** Every unwrapping chain is a first-child path. */
  lemma {:induction false} UnexposedChainIsFirstDescendant(c: Cursor, r: Cursor)
    requires UnexposedChain(c, r)
    ensures FirstDescendant(c, r)
    decreases c
  {
    if r != c {
      UnexposedChainIsFirstDescendant(c.children[0], r);
    }
  }

  /** `depth_first`: follow first children down to a cursor without children. */
  function Leaf(c: Cursor): (r: Cursor)
    ensures r.children == []
    ensures FirstDescendant(c, r)
    decreases c
  {
    if c.children == [] then c else Leaf(c.children[0])
  }

  /** The childless cursor on the first-child path is unique, so `Leaf` is determined by it. */
  lemma {:induction false} LeafUnique(c: Cursor, r: Cursor)
    requires FirstDescendant(c, r) && r.children == []
    ensures r == Leaf(c)
    decreases c
  {
    if r != c {
      LeafUnique(c.children[0], r);
    }
  }

  /** Python's `str.startswith`: `s` begins with `prefix`. */
  predicate StartsWith(s: string, prefix: string)
  {
    |prefix| <= |s| && forall i :: 0 <= i < |prefix| ==> s[i] == prefix[i]
  }

  /** Python's `str.endswith`: `s` finishes with `suffix`. */
  predicate EndsWith(s: string, suffix: string)
  {
    |suffix| <= |s| && forall i :: 0 <= i < |suffix| ==> s[|s| - |suffix| + i] == suffix[i]
  }

  /** `StartsWith` agrees with comparing the initial slice. */
  lemma StartsWithSlice(s: string, prefix: string)
    ensures StartsWith(s, prefix) <==> |prefix| <= |s| && s[..|prefix|] == prefix
  {
  }

  /** `EndsWith` agrees with comparing the final slice. */
  lemma EndsWithSlice(s: string, suffix: string)
    ensures EndsWith(s, suffix) <==> |suffix| <= |s| && s[|s| - |suffix|..] == suffix
  {
  }
}
