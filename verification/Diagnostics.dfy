/**
 * What `compare_cursor_types` decides and reports. The checker writes its
 * findings to stderr; here each finding is a structured `Diagnostic`.
 */
module Diagnostics {
  import opened Cursors

  datatype Option<T> = None | Some(value: T)

  /** The construct a diagnostic is about; it determines the first line of the report. */
  datatype Construct =
    | InBinaryOperation
    | InFunctionCall(callee: string)
    | InVariableDeclaration
    | InReturnStatement

  /**
   * The message line of each construct, spelled as the checker prints it:
   * "Type missmatch in ", the construct, and a closing colon.
   */
  function MessageText(m: Construct): (r: string)
    ensures StartsWith(r, "Type missmatch in ") && |r| > 18 && r[|r| - 1] == ':'
  {
    match m
    case InBinaryOperation => "Type missmatch in binary operation:"
    case InFunctionCall(callee) => "Type missmatch in function call of \"" + callee + "\":"
    case InVariableDeclaration => "Type missmatch in variable declaration:"
    case InReturnStatement => "Type missmatch in return statement:"
  }

  /**
   * The message line identifies the construct, and for a call the callee's
   * display name: two different constructs never print the same line.
   */
  lemma MessageTextDistinct(a: Construct, b: Construct)
    requires MessageText(a) == MessageText(b)
    ensures a == b
  {
    var ra, rb := MessageText(a), MessageText(b);
    assert ra[18] == rb[18];
    if a.InFunctionCall? && b.InFunctionCall? {
      assert a.callee == ra[|"Type missmatch in function call of \""|..|ra| - 2];
    }
  }

  /**
   * One report: the construct, where it is reported, both type spellings with
   * their canonical spellings, and for a call the location of the called
   * function's definition (the optional trailing line).
   */
  datatype Diagnostic = Diagnostic(
    construct: Construct,
    location: Location,
    spelling0: string,
    canonical0: string,
    spelling1: string,
    canonical1: string,
    definedAt: Option<Location>)

  /**
   * The fixed inputs of a run: the absolute paths of every file under the
   * include roots (`available_includes`) and `os.path.abspath`, which depends
   * on the working directory and is therefore a parameter.
   */
  datatype Config = Config(availableIncludes: set<string>, abspath: string -> string)

  /** A location lies in a file the project owns. */
  predicate Owned(config: Config, loc: Location)
  {
    config.abspath(loc.file) in config.availableIncludes
  }

  /** A diagnostic only an exact spelling mismatch inside an owned file can produce. */
  predicate Genuine(config: Config, d: Diagnostic)
  {
    d.spelling0 != d.spelling1 && Owned(config, d.location)
  }

  /** `compare_cursor_types`: the diagnostics one comparison appends (none or one). */
  function CompareTypes(config: Config, c0: Cursor, c1: Cursor, loc: Location, construct: Construct,
                        definedAt: Option<Location>): (r: seq<Diagnostic>)
    ensures |r| <= 1
    ensures r != [] <==> c0.spelling != c1.spelling && config.abspath(loc.file) in config.availableIncludes
    ensures forall d :: d in r ==>
      && d.construct == construct && d.location == loc && d.definedAt == definedAt
      && d.spelling0 == c0.spelling && d.spelling1 == c1.spelling
      && d.canonical0 == c0.canonical && d.canonical1 == c1.canonical
    ensures forall d :: d in r ==> Genuine(config, d)
  {
    if c0.spelling != c1.spelling && Owned(config, loc) then
      [Diagnostic(construct, loc, c0.spelling, c0.canonical, c1.spelling, c1.canonical, definedAt)]
    else
      []
  }
}
