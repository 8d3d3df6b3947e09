/**
 * The command-line side of the checker: reading the compiler's default
 * include directories out of its verbose output, turning the arguments into
 * include roots and the argument list handed to the parser, and flattening
 * a directory walk into file paths. Running the compiler and walking the
 * filesystem happen outside; their results are the inputs here.
 */
module Arguments {
  import opened Cursors

  /** The line after which the compiler lists its `#include <...>` directories. */
  const SearchStart := "#include <...> search starts here:"
  /** The line that ends that list. */
  const SearchEnd := "End of search list."

  // ---------------------------------------------------------------------
  // str.strip
  // ---------------------------------------------------------------------

  /**
   * Python's `str.isspace` for one character: the ASCII whitespace controls,
   * the separators U+001C to U+001F, and the Unicode spaces and line and
   * paragraph separators.
   */
  predicate IsSpace(ch: char): (r: bool)
    ensures ch in " \t\n\r\U{000B}\U{000C}" ==> r
    ensures '!' <= ch <= '~' ==> !r
    ensures r ==> ch as int <= 0x3000
  {
    var n := ch as int;
    || 9 <= n <= 13 || 28 <= n <= 32 || n == 0x85 || n == 0xA0 || n == 0x1680
    || 0x2000 <= n <= 0x200A || n == 0x2028 || n == 0x2029 || n == 0x202F
    || n == 0x205F || n == 0x3000
  }

  /** `s` without its leading whitespace. */
  function TrimStart(s: string): (r: string)
    ensures |r| <= |s| && r == s[|s| - |r|..]
    ensures r == [] || !IsSpace(r[0])
    ensures forall i :: 0 <= i < |s| - |r| ==> IsSpace(s[i])
    decreases |s|
  {
    if s != [] && IsSpace(s[0]) then TrimStart(s[1..]) else s
  }

  /** `s` without its trailing whitespace. */
  function TrimEnd(s: string): (r: string)
    ensures |r| <= |s| && r == s[..|r|]
    ensures r == [] || !IsSpace(r[|r| - 1])
    ensures forall i :: |r| <= i < |s| ==> IsSpace(s[i])
    decreases |s|
  {
    if s != [] && IsSpace(s[|s| - 1]) then TrimEnd(s[..|s| - 1]) else s
  }

  /** Every character of `s` is whitespace. */
  predicate AllSpace(s: string)
  {
    forall i :: 0 <= i < |s| ==> IsSpace(s[i])
  }

  /**
   * Python's `str.strip()`: the part of `s` between its leading and its
   * trailing whitespace.
   */
  function Strip(s: string): (r: string)
    ensures |r| <= |s|
    ensures r == [] || (!IsSpace(r[0]) && !IsSpace(r[|r| - 1]))
  {
    TrimEnd(TrimStart(s))
  }

  /** The whitespace `Strip` removes at the front of `s`. */
  function LeadingSpace(s: string): (r: string)
    ensures AllSpace(r)
  {
    s[..|s| - |TrimStart(s)|]
  }

  /** The whitespace `Strip` removes at the back of `s`. */
  function TrailingSpace(s: string): (r: string)
    ensures AllSpace(r)
  {
    var t := TrimStart(s);
    SuffixAllSpace(t, |TrimEnd(t)|);
    t[|TrimEnd(t)|..]
  }

  /** A suffix of whitespace characters, taken as a slice, is all whitespace. */
  lemma SuffixAllSpace(t: string, k: nat)
    requires k <= |t| && forall i :: k <= i < |t| ==> IsSpace(t[i])
    ensures AllSpace(t[k..])
  {
    forall i | 0 <= i < |t| - k
      ensures IsSpace(t[k..][i])
    {
      assert t[k..][i] == t[k + i];
    }
  }

  /** `Strip` removes whitespace only, and only at the two ends. */
  lemma StripRemovesOuterSpace(s: string)
    ensures s == LeadingSpace(s) + Strip(s) + TrailingSpace(s)
  {
    var t := TrimStart(s);
    SplitThree(s, |s| - |t|, |TrimEnd(t)|);
  }

  /** Cutting `x` at `k` and its rest at `m` loses nothing. */
  lemma SplitThree(x: string, k: nat, m: nat)
    requires k + m <= |x|
    ensures x == x[..k] + x[k..][..m] + x[k..][m..]
  {
    var y := x[k..];
    assert y == y[..m] + y[m..];
    assert x == x[..k] + y;
    assert x[..k] + y[..m] + y[m..] == x[..k] + (y[..m] + y[m..]);
  }

  // ---------------------------------------------------------------------
  // The line scan of get_clang_includes
  // ---------------------------------------------------------------------

  /**
   * Whether capture is on when line `i` is reached: the start marker turns
   * it on for the lines after it, the end marker turns it off from itself on.
   */
  predicate CaptureOn(lines: seq<string>, i: nat)
    requires i <= |lines|
    decreases i
  {
    i > 0 && (lines[i - 1] == SearchStart || (CaptureOn(lines, i - 1) && lines[i - 1] != SearchEnd))
  }

  /** Line `i` is captured: capture is on when it is reached and it is not the end marker. */
  predicate Captured(lines: seq<string>, i: nat)
    requires i < |lines|
  {
    lines[i] != SearchEnd && CaptureOn(lines, i)
  }

  /** The captured lines among the first `n`, in order, before stripping. */
  function CapturedLines(lines: seq<string>, n: nat): seq<string>
    requires n <= |lines|
  {
    if n == 0 then []
    else CapturedLines(lines, n - 1) + if Captured(lines, n - 1) then [lines[n - 1]] else []
  }

  /** The loop of `get_clang_includes` over the compiler's stderr lines: the captured lines, stripped. */
  method ScanClangIncludes(lines: seq<string>) returns (includes: seq<string>)
    ensures includes == StripAll(CapturedLines(lines, |lines|))
  {
    includes := [];
    var captureIncludes := false;
    for i := 0 to |lines|
      invariant captureIncludes == CaptureOn(lines, i)
      invariant includes == StripAll(CapturedLines(lines, i))
    {
      var line := lines[i];
      if line == SearchEnd {
        captureIncludes := false;
      }
      if captureIncludes {
        includes := includes + [Strip(line)];
      }
      if line == SearchStart {
        captureIncludes := true;
      }
      if Captured(lines, i) {
        assert CapturedLines(lines, i + 1) == CapturedLines(lines, i) + [line];
        StripAllSnoc(CapturedLines(lines, i), line);
      } else {
        assert CapturedLines(lines, i + 1) == CapturedLines(lines, i) + [];
        assert CapturedLines(lines, i) + [] == CapturedLines(lines, i);
      }
    }
  }

  /** No end marker among the lines strictly between `j` and `i`. */
  ghost predicate NoEndBetween(lines: seq<string>, j: nat, i: nat)
    requires j <= i <= |lines|
  {
    forall k :: j < k < i ==> lines[k] != SearchEnd
  }

  /** Some line before `i` is the start marker and no end marker follows it before `i`. */
  ghost predicate OpenBefore(lines: seq<string>, i: nat)
    requires i <= |lines|
  {
    exists j :: 0 <= j < i && lines[j] == SearchStart && NoEndBetween(lines, j, i)
  }

  /** How `OpenBefore` evolves over one line: the start marker opens, the end marker closes. */
  lemma OpenStep(lines: seq<string>, i: nat)
    requires i < |lines|
    ensures OpenBefore(lines, i + 1) <==> lines[i] == SearchStart || (OpenBefore(lines, i) && lines[i] != SearchEnd)
  {
    if OpenBefore(lines, i + 1) && lines[i] != SearchStart {
      var j :| 0 <= j < i + 1 && lines[j] == SearchStart && NoEndBetween(lines, j, i + 1);
      assert j != i;
      assert lines[i] != SearchEnd;
      assert NoEndBetween(lines, j, i);
    }
    if lines[i] == SearchStart {
      assert NoEndBetween(lines, i, i + 1);
    } else if OpenBefore(lines, i) && lines[i] != SearchEnd {
      var j :| 0 <= j < i && lines[j] == SearchStart && NoEndBetween(lines, j, i);
      assert NoEndBetween(lines, j, i + 1);
    }
  }

  /**
   * Capture is on at line `i` exactly when some earlier line is the start
   * marker and no end marker lies after it and before `i`.
   */
  lemma {:induction false} CaptureOnIffOpen(lines: seq<string>, i: nat)
    requires i <= |lines|
    ensures CaptureOn(lines, i) <==> OpenBefore(lines, i)
    decreases i
  {
    if i > 0 {
      CaptureOnIffOpen(lines, i - 1);
      OpenStep(lines, i - 1);
    }
  }

  /** `Strip` applied to every line. */
  function StripAll(lines: seq<string>): (r: seq<string>)
    ensures |r| == |lines|
    ensures forall i :: 0 <= i < |r| ==> r[i] == Strip(lines[i])
  {
    if lines == [] then [] else StripAll(lines[..|lines| - 1]) + [Strip(lines[|lines| - 1])]
  }

  /** Lines that are not captured add nothing. */
  lemma {:induction false} SkipUncaptured(lines: seq<string>, a: nat, b: nat)
    requires a <= b <= |lines|
    requires forall i :: a <= i < b ==> !Captured(lines, i)
    ensures CapturedLines(lines, b) == CapturedLines(lines, a)
    decreases b - a
  {
    if a < b {
      SkipUncaptured(lines, a, b - 1);
    }
  }

  /** A run of captured lines adds those lines, stripped, in order. */
  lemma {:induction false} TakeCaptured(lines: seq<string>, a: nat, b: nat)
    requires a <= b <= |lines|
    requires forall i :: a <= i < b ==> Captured(lines, i)
    ensures CapturedLines(lines, b) == CapturedLines(lines, a) + lines[a..b]
    decreases b - a
  {
    if a < b {
      TakeCaptured(lines, a, b - 1);
      SliceSnoc(lines, a, b);
      ConcatAssoc(CapturedLines(lines, a), lines[a..b - 1], [lines[b - 1]]);
    }
  }

  /** Proof step: associativity of concatenation; it models nothing of the checker. */
  lemma ConcatAssoc(x: seq<string>, y: seq<string>, z: seq<string>)
    ensures x + (y + z) == (x + y) + z
  {
  }

  /** Proof step: a slice one longer is the shorter slice plus one element; it models nothing of the checker. */
  lemma SliceSnoc(s: seq<string>, a: nat, b: nat)
    requires a < b <= |s|
    ensures s[a..b] == s[a..b - 1] + [s[b - 1]]
  {
  }

  /** Stripping one more line appends that line stripped. */
  lemma StripAllSnoc(xs: seq<string>, x: string)
    ensures StripAll(xs + [x]) == StripAll(xs) + [Strip(x)]
  {
    assert (xs + [x])[..|xs|] == xs;
  }

  /** Up to the first start marker, capture is off. */
  lemma {:induction false} ClosedBeforeStart(lines: seq<string>, s: nat, i: nat)
    requires i <= s <= |lines|
    requires forall j :: 0 <= j < s ==> lines[j] != SearchStart
    ensures !CaptureOn(lines, i)
    decreases i
  {
    if i > 0 {
      ClosedBeforeStart(lines, s, i - 1);
    }
  }

  /** After a start marker, capture stays on up to and including the next end marker. */
  lemma {:induction false} OpenUntilEnd(lines: seq<string>, s: nat, e: nat, i: nat)
    requires s < i <= e < |lines| && lines[s] == SearchStart
    requires forall k :: s < k < e ==> lines[k] != SearchEnd
    ensures CaptureOn(lines, i)
    decreases i
  {
    if i > s + 1 {
      OpenUntilEnd(lines, s, e, i - 1);
    }
  }

  /** After an end marker that no start marker follows, capture is off. */
  lemma {:induction false} ClosedAfterEnd(lines: seq<string>, e: nat, i: nat)
    requires e < i <= |lines| && lines[e] == SearchEnd
    requires forall j :: e < j < |lines| ==> lines[j] != SearchStart
    ensures !CaptureOn(lines, i)
    decreases i
  {
    if i > e + 1 {
      ClosedAfterEnd(lines, e, i - 1);
    }
  }

  /** Nothing is captured up to and including the first start marker. */
  lemma PrefixSkipped(lines: seq<string>, s: nat)
    requires s < |lines|
    requires forall j :: 0 <= j < s ==> lines[j] != SearchStart
    ensures CapturedLines(lines, s + 1) == []
  {
    forall i | 0 <= i < s + 1
      ensures !Captured(lines, i)
    {
      ClosedBeforeStart(lines, s, i);
    }
    SkipUncaptured(lines, 0, s + 1);
  }

  /** Every line after the start marker and before the next end marker is captured. */
  lemma BlockTaken(lines: seq<string>, s: nat, e: nat)
    requires s < e < |lines| && lines[s] == SearchStart
    requires forall k :: s < k < e ==> lines[k] != SearchEnd
    ensures CapturedLines(lines, e) == CapturedLines(lines, s + 1) + lines[s + 1..e]
  {
    forall i | s + 1 <= i < e
      ensures Captured(lines, i)
    {
      OpenUntilEnd(lines, s, e, i);
    }
    TakeCaptured(lines, s + 1, e);
  }

  /** Nothing is captured from an end marker on when no start marker follows it. */
  lemma SuffixSkipped(lines: seq<string>, e: nat)
    requires e < |lines| && lines[e] == SearchEnd
    requires forall j :: e < j < |lines| ==> lines[j] != SearchStart
    ensures CapturedLines(lines, |lines|) == CapturedLines(lines, e)
  {
    forall i | e <= i < |lines|
      ensures !Captured(lines, i)
    {
      if i > e {
        ClosedAfterEnd(lines, e, i);
      }
    }
    SkipUncaptured(lines, e, |lines|);
  }

  /**
   * The scan of a listing with one start marker at `s`, the next end marker
   * at `e` and no start marker after it: the lines strictly between.
   */
  lemma ScanBlockAt(lines: seq<string>, s: nat, e: nat)
    requires s < e < |lines| && lines[s] == SearchStart && lines[e] == SearchEnd
    requires forall j :: 0 <= j < s ==> lines[j] != SearchStart
    requires forall k :: s < k < e ==> lines[k] != SearchEnd
    requires forall j :: e < j < |lines| ==> lines[j] != SearchStart
    ensures CapturedLines(lines, |lines|) == lines[s + 1..e]
  {
    PrefixSkipped(lines, s);
    BlockTaken(lines, s, e);
    SuffixSkipped(lines, e);
    assert [] + lines[s + 1..e] == lines[s + 1..e];
  }

  /**
   * The scan of a well-formed listing: when the start marker appears once
   * before the end marker, no end marker lies between them and no start
   * marker follows, exactly the lines strictly between the two are
   * captured, in order (the scan returns them stripped).
   */
  lemma ScanBlock(pre: seq<string>, mid: seq<string>, post: seq<string>)
    requires SearchStart !in pre && SearchEnd !in mid && SearchStart !in post
    ensures var lines := pre + [SearchStart] + mid + [SearchEnd] + post;
      CapturedLines(lines, |lines|) == mid
  {
    var lines := pre + [SearchStart] + mid + [SearchEnd] + post;
    var s := |pre|;
    var e := s + 1 + |mid|;
    assert lines[s] == SearchStart && lines[e] == SearchEnd;
    assert lines[s + 1..e] == mid;
    forall j | 0 <= j < s
      ensures lines[j] != SearchStart
    {
      assert lines[j] == pre[j];
    }
    forall j | e < j < |lines|
      ensures lines[j] != SearchStart
    {
      assert lines[j] == post[j - e - 1];
    }
    forall k | s < k < e
      ensures lines[k] != SearchEnd
    {
      assert lines[k] == mid[k - s - 1];
    }
    ScanBlockAt(lines, s, e);
  }

  /**
   * As written, a start marker met while capture is already on is itself
   * captured: the capture test runs before the start-marker test.
   */
  lemma RepeatedStartCaptured()
    ensures CapturedLines([SearchStart, SearchStart, SearchEnd], 3) == [SearchStart]
  {
    var lines := [SearchStart, SearchStart, SearchEnd];
    assert Captured(lines, 1);
    assert CapturedLines(lines, 1) == [];
    assert CapturedLines(lines, 2) == [SearchStart];
  }

  // ---------------------------------------------------------------------
  // parse_args
  // ---------------------------------------------------------------------

  datatype ParsedArgs = ParsedArgs(includeDirs: set<string>, clangArgs: seq<string>)

  /** `["-I", inc]` for every default include directory, in order. */
  function IncludePairs(includes: seq<string>): (r: seq<string>)
    ensures |r| == 2 * |includes|
    ensures forall i :: 0 <= i < |includes| ==> r[2 * i] == "-I" && r[2 * i + 1] == includes[i]
    decreases |includes|
  {
    if includes == [] then []
    else IncludePairs(includes[..|includes| - 1]) + ["-I", includes[|includes| - 1]]
  }

  /** The loop of `parse_args` that builds the default include arguments. */
  method DefaultIncludeArgs(includes: seq<string>) returns (args: seq<string>)
    ensures args == IncludePairs(includes)
  {
    args := [];
    for i := 0 to |includes|
      invariant args == IncludePairs(includes[..i])
    {
      args := args + ["-I", includes[i]];
      assert includes[..i + 1][..i] == includes[..i];
    }
    assert includes[..|includes|] == includes;
  }

  /** The roots one argument names by itself: a `.c` file's directory, or the rest of `-I<dir>`. */
  function OwnRoots(arg: string, dirname: string -> string): set<string>
  {
    (if EndsWith(arg, ".c") then {dirname(arg)} else {})
    + (if StartsWith(arg, "-I") && |arg| > 2 then {arg[2..]} else {})
  }

  /** The directory of every `.c` argument. */
  function SourceDirs(argv: seq<string>, dirname: string -> string): set<string>
  {
    set a | a in argv && EndsWith(a, ".c") :: dirname(a)
  }

  /** The rest of every `-I<dir>` argument whose rest is not empty. */
  function AttachedDirs(argv: seq<string>): set<string>
  {
    set a | a in argv && StartsWith(a, "-I") && |a| > 2 :: a[2..]
  }

  /**
   * The include roots `parse_args` collects, as written: the directory of
   * every `.c` argument, the rest of every `-I<dir>` argument with a
   * non-empty rest, and the bare `-I` itself when it occurs.
   */
  function IncludeRoots(argv: seq<string>, dirname: string -> string): set<string>
  {
    SourceDirs(argv, dirname) + AttachedDirs(argv) + (if "-I" in argv then {"-I"} else {})
  }

  /** One more argument adds its directory to the source directories exactly when it ends in `.c`. */
  lemma SourceDirsAppend(args: seq<string>, arg: string, dirname: string -> string)
    ensures SourceDirs(args + [arg], dirname) ==
      SourceDirs(args, dirname) + (if EndsWith(arg, ".c") then {dirname(arg)} else {})
  {
    assert forall a :: a in args + [arg] <==> a in args || a == arg;
  }

  /** One more argument adds its rest exactly when it is `-I<dir>` with a non-empty rest. */
  lemma AttachedDirsAppend(args: seq<string>, arg: string)
    ensures AttachedDirs(args + [arg]) ==
      AttachedDirs(args) + (if StartsWith(arg, "-I") && |arg| > 2 then {arg[2..]} else {})
  {
    assert forall a :: a in args + [arg] <==> a in args || a == arg;
  }

  /** What the argument loop has collected after the first `n` arguments, one argument at a time. */
  function RootsCollected(argv: seq<string>, n: nat, dirname: string -> string): set<string>
    requires n <= |argv|
  {
    if n == 0 then {}
    else
      RootsCollected(argv, n - 1, dirname) + OwnRoots(argv[n - 1], dirname)
      + (if argv[n - 1] == "-I" then {"-I"} else {})
  }

  /** Proof step: regrouping a union of six sets; it models nothing of the checker. */
  lemma UnionRegroup(a: set<string>, b: set<string>, c: set<string>, a1: set<string>, b1: set<string>, c1: set<string>)
    ensures (a + b + c) + (a1 + b1) + c1 == (a + a1) + (b + b1) + (c + c1)
  {
  }

  /** Appending an argument adds the roots it names by itself, and `-I` when it is the bare flag. */
  lemma IncludeRootsAppend(init: seq<string>, arg: string, dirname: string -> string)
    ensures IncludeRoots(init + [arg], dirname)
      == IncludeRoots(init, dirname) + OwnRoots(arg, dirname) + (if arg == "-I" then {"-I"} else {})
  {
    SourceDirsAppend(init, arg, dirname);
    AttachedDirsAppend(init, arg);
    var flag: set<string> := if "-I" in init then {"-I"} else {};
    var flag1: set<string> := if arg == "-I" then {"-I"} else {};
    assert (if "-I" in init + [arg] then {"-I"} else {}) == flag + flag1;
    var a1: set<string> := if EndsWith(arg, ".c") then {dirname(arg)} else {};
    var b1: set<string> := if StartsWith(arg, "-I") && |arg| > 2 then {arg[2..]} else {};
    UnionRegroup(SourceDirs(init, dirname), AttachedDirs(init), flag, a1, b1, flag1);
  }

  /** Proof step: regrouping a union of sets; it models nothing of the checker. */
  lemma UnionMoveLast(d: set<string>, g: set<string>, c: set<string>, b: set<string>)
    ensures d + g + c + b == d + g + (c + b)
  {
  }

  /** Proof step: associativity of set union; it models nothing of the checker. */
  lemma UnionAssoc(a: set<string>, b: set<string>, c: set<string>)
    ensures a + b + c == a + (b + c)
  {
  }

  /** Proof step: equal parts give equal unions; it models nothing of the checker. */
  lemma UnionCongruence(a: set<string>, b: set<string>, o: set<string>, e: set<string>)
    requires a == b
    ensures a + o + e == b + o + e
  {
  }

  /** Proof step: commuting two parts of a union; it models nothing of the checker. */
  lemma UnionSwap(d: set<string>, g: set<string>, o: set<string>)
    ensures d + g + o == d + o + g
  {
  }

  /** One more argument, stated on the prefixes of `argv` the loop has seen. */
  lemma IncludeRootsStep(argv: seq<string>, n: nat, dirname: string -> string)
    requires 0 < n <= |argv|
    ensures IncludeRoots(argv[..n], dirname)
      == IncludeRoots(argv[..n - 1], dirname) + OwnRoots(argv[n - 1], dirname)
      + (if argv[n - 1] == "-I" then {"-I"} else {})
  {
    assert argv[..n] == argv[..n - 1] + [argv[n - 1]];
    IncludeRootsAppend(argv[..n - 1], argv[n - 1], dirname);
  }

  /** No argument, no root. */
  lemma IncludeRootsEmpty(argv: seq<string>, dirname: string -> string)
    ensures IncludeRoots(argv[..0], dirname) == {}
  {
    assert argv[..0] == [];
  }

  /** If the loop is right after `n - 1` arguments, it is right after `n`. */
  lemma RootsCollectedStep(argv: seq<string>, n: nat, dirname: string -> string)
    requires 0 < n <= |argv|
    requires RootsCollected(argv, n - 1, dirname) == IncludeRoots(argv[..n - 1], dirname)
    ensures RootsCollected(argv, n, dirname) == IncludeRoots(argv[..n], dirname)
  {
    IncludeRootsStep(argv, n, dirname);
    UnionCongruence(RootsCollected(argv, n - 1, dirname), IncludeRoots(argv[..n - 1], dirname),
      OwnRoots(argv[n - 1], dirname), if argv[n - 1] == "-I" then {"-I"} else {});
  }

  /** The loop collects exactly the include roots the arguments it has seen name. */
  lemma {:induction false} RootsCollectedAreIncludeRoots(argv: seq<string>, n: nat, dirname: string -> string)
    requires n <= |argv|
    ensures RootsCollected(argv, n, dirname) == IncludeRoots(argv[..n], dirname)
  {
    if n == 0 {
      IncludeRootsEmpty(argv, dirname);
    } else {
      RootsCollectedAreIncludeRoots(argv, n - 1, dirname);
      RootsCollectedStep(argv, n, dirname);
    }
  }

  /** The argument loop of `parse_args`, as written: the include roots, and the arguments unchanged. */
  method ScanArguments(argv: seq<string>, dirname: string -> string)
    returns (includeDirs: set<string>, clangArgs: seq<string>)
    ensures includeDirs == IncludeRoots(argv, dirname)
    ensures clangArgs == argv
  {
    includeDirs := {};
    clangArgs := [];
    var grabNextAsIncludeDir := false;
    for i := 0 to |argv|
      invariant !grabNextAsIncludeDir
      invariant includeDirs == RootsCollected(argv, i, dirname)
      invariant clangArgs == argv[..i]
    {
      var arg := argv[i];
      ghost var before := includeDirs;
      ghost var source: set<string> := if EndsWith(arg, ".c") then {dirname(arg)} else {};
      ghost var attached: set<string> := if StartsWith(arg, "-I") && |arg| > 2 then {arg[2..]} else {};
      ghost var flag: set<string> := if arg == "-I" then {"-I"} else {};
      if EndsWith(arg, ".c") {
        includeDirs := includeDirs + {dirname(arg)};
      }
      assert includeDirs == before + source;
      if arg == "-I" {
        grabNextAsIncludeDir := true;
      }
      if StartsWith(arg, "-I") {
        var includeDir := arg[2..];
        if includeDir != "" {
          includeDirs := includeDirs + {includeDir};
        }
      }
      assert includeDirs == before + source + attached;
      if grabNextAsIncludeDir {
        includeDirs := includeDirs + {arg};
        grabNextAsIncludeDir := false;
      }
      assert includeDirs == before + source + attached + flag;
      clangArgs := clangArgs + [arg];
      UnionAssoc(before, source, attached);
    }
    assert argv[..|argv|] == argv;
    RootsCollectedAreIncludeRoots(argv, |argv|, dirname);
  }

  /**
   * `parse_args` over the arguments and the compiler's verbose output:
   * the include roots, and the default include pairs followed by the
   * arguments unchanged.
   */
  method ParseArgs(argv: seq<string>, clangOutput: seq<string>, dirname: string -> string)
    returns (parsed: ParsedArgs)
    ensures parsed.includeDirs == IncludeRoots(argv, dirname)
    ensures parsed.clangArgs == IncludePairs(StripAll(CapturedLines(clangOutput, |clangOutput|))) + argv
  {
    var includeDirs, clangArgs := ScanArguments(argv, dirname);
    var defaultIncludes := ScanClangIncludes(clangOutput);
    var defaultArgs := DefaultIncludeArgs(defaultIncludes);
    parsed := ParsedArgs(includeDirs, defaultArgs + clangArgs);
  }

  /**
   * As written, `-I dir` (two arguments) never makes `dir` an include root:
   * the flag set by the bare `-I` is consumed in the same iteration, by the
   * `-I` itself.
   */
  lemma SeparateIncludeDirDropped(dirname: string -> string)
    ensures IncludeRoots(["-I", "inc"], dirname) == {"-I"}
  {
    assert "-I"[0] != ".c"[0] && "inc"[1] != ".c"[0];
    assert !EndsWith("-I", ".c") && !EndsWith("inc", ".c");
    assert "inc"[0] != "-I"[0];
    assert !StartsWith("inc", "-I");
    assert forall a :: a in ["-I", "inc"] <==> a == "-I" || a == "inc";
  }

  /** Argument `i` directly follows a bare `-I`. */
  predicate AfterBareInclude(argv: seq<string>, i: int)
  {
    0 < i < |argv| && argv[i - 1] == "-I"
  }

  /**
   * The include roots the two-argument form is evidently meant to give: the
   * argument after every bare `-I` is a root. The flag rule adds a bare `-I`
   * only when it directly follows another bare `-I`, as for `-I -I`.
   */
  function IntendedIncludeRoots(argv: seq<string>, dirname: string -> string): set<string>
  {
    SourceDirs(argv, dirname) + AttachedDirs(argv) + FollowingBareFlag(argv)
  }

  /** Every argument that directly follows a bare `-I`. */
  function FollowingBareFlag(argv: seq<string>): set<string>
  {
    set i | 0 <= i < |argv| && AfterBareInclude(argv, i) :: argv[i]
  }

  /** What the corrected argument loop has collected after the first `n` arguments. */
  function IntendedRootsCollected(argv: seq<string>, n: nat, dirname: string -> string): set<string>
    requires n <= |argv|
  {
    if n == 0 then {}
    else
      IntendedRootsCollected(argv, n - 1, dirname) + OwnRoots(argv[n - 1], dirname)
      + (if n >= 2 && argv[n - 2] == "-I" then {argv[n - 1]} else {})
  }

  /** One more argument is added as a root exactly when it directly follows a bare `-I`. */
  lemma FollowingBareFlagAppend(args: seq<string>, arg: string)
    ensures FollowingBareFlag(args + [arg]) ==
      FollowingBareFlag(args) + (if AfterBareInclude(args + [arg], |args|) then {arg} else {})
  {
    var xs := args + [arg];
    var extra: set<string> := if AfterBareInclude(xs, |args|) then {arg} else {};
    forall x | x in FollowingBareFlag(xs) ensures x in FollowingBareFlag(args) + extra {
      var i :| 0 <= i < |xs| && AfterBareInclude(xs, i) && xs[i] == x;
      if i < |args| {
        assert AfterBareInclude(args, i) && args[i] == x;
      }
    }
    forall x | x in FollowingBareFlag(args) + extra ensures x in FollowingBareFlag(xs) {
      if x in FollowingBareFlag(args) {
        var i :| 0 <= i < |args| && AfterBareInclude(args, i) && args[i] == x;
        assert AfterBareInclude(xs, i) && xs[i] == x;
      } else {
        assert AfterBareInclude(xs, |args|) && xs[|args|] == x;
      }
    }
  }

  /** Appending an argument adds the roots it names by itself, and itself when it follows a bare `-I`. */
  lemma IntendedIncludeRootsAppend(init: seq<string>, arg: string, dirname: string -> string)
    ensures IntendedIncludeRoots(init + [arg], dirname)
      == IntendedIncludeRoots(init, dirname) + OwnRoots(arg, dirname)
      + (if AfterBareInclude(init + [arg], |init|) then {arg} else {})
  {
    SourceDirsAppend(init, arg, dirname);
    AttachedDirsAppend(init, arg);
    FollowingBareFlagAppend(init, arg);
    UnionRegroup(SourceDirs(init, dirname), AttachedDirs(init), FollowingBareFlag(init),
      if EndsWith(arg, ".c") then {dirname(arg)} else {},
      if StartsWith(arg, "-I") && |arg| > 2 then {arg[2..]} else {},
      if AfterBareInclude(init + [arg], |init|) then {arg} else {});
  }

  /** One more argument, stated on the prefixes of `argv` the corrected loop has seen. */
  lemma IntendedIncludeRootsStep(argv: seq<string>, n: nat, dirname: string -> string)
    requires 0 < n <= |argv|
    ensures IntendedIncludeRoots(argv[..n], dirname)
      == IntendedIncludeRoots(argv[..n - 1], dirname) + OwnRoots(argv[n - 1], dirname)
      + (if n >= 2 && argv[n - 2] == "-I" then {argv[n - 1]} else {})
  {
    var init := argv[..n - 1];
    assert argv[..n] == init + [argv[n - 1]];
    assert AfterBareInclude(init + [argv[n - 1]], n - 1) <==> n >= 2 && argv[n - 2] == "-I";
    IntendedIncludeRootsAppend(init, argv[n - 1], dirname);
  }

  /** No argument, no intended root. */
  lemma IntendedIncludeRootsEmpty(argv: seq<string>, dirname: string -> string)
    ensures IntendedIncludeRoots(argv[..0], dirname) == {}
  {
    assert argv[..0] == [];
  }

  /** If the corrected loop is right after `n - 1` arguments, it is right after `n`. */
  lemma IntendedRootsCollectedStep(argv: seq<string>, n: nat, dirname: string -> string)
    requires 0 < n <= |argv|
    requires IntendedRootsCollected(argv, n - 1, dirname) == IntendedIncludeRoots(argv[..n - 1], dirname)
    ensures IntendedRootsCollected(argv, n, dirname) == IntendedIncludeRoots(argv[..n], dirname)
  {
    IntendedIncludeRootsStep(argv, n, dirname);
    UnionCongruence(IntendedRootsCollected(argv, n - 1, dirname), IntendedIncludeRoots(argv[..n - 1], dirname),
      OwnRoots(argv[n - 1], dirname), if n >= 2 && argv[n - 2] == "-I" then {argv[n - 1]} else {});
  }

  /** The corrected loop collects exactly the intended include roots. */
  lemma {:induction false} IntendedRootsCollectedAreIntended(argv: seq<string>, n: nat, dirname: string -> string)
    requires n <= |argv|
    ensures IntendedRootsCollected(argv, n, dirname) == IntendedIncludeRoots(argv[..n], dirname)
  {
    if n == 0 {
      IntendedIncludeRootsEmpty(argv, dirname);
    } else {
      IntendedRootsCollectedAreIntended(argv, n - 1, dirname);
      IntendedRootsCollectedStep(argv, n, dirname);
    }
  }

  /**
   * The argument loop of `parse_args` with the `-I dir` form corrected: the
   * grab test runs before the bare `-I` sets the flag, so the flag reaches
   * the next argument.
   */
  method ScanArgumentsCorrected(argv: seq<string>, dirname: string -> string)
    returns (includeDirs: set<string>, clangArgs: seq<string>)
    ensures includeDirs == IntendedIncludeRoots(argv, dirname)
    ensures clangArgs == argv
  {
    includeDirs := {};
    clangArgs := [];
    var grabNextAsIncludeDir := false;
    for i := 0 to |argv|
      invariant grabNextAsIncludeDir <==> i > 0 && argv[i - 1] == "-I"
      invariant includeDirs == IntendedRootsCollected(argv, i, dirname)
      invariant clangArgs == argv[..i]
    {
      var arg := argv[i];
      ghost var before := includeDirs;
      ghost var grabbed: set<string> := if grabNextAsIncludeDir then {arg} else {};
      ghost var source: set<string> := if EndsWith(arg, ".c") then {dirname(arg)} else {};
      if grabNextAsIncludeDir {
        includeDirs := includeDirs + {arg};
        grabNextAsIncludeDir := false;
      }
      assert includeDirs == before + grabbed;
      if EndsWith(arg, ".c") {
        includeDirs := includeDirs + {dirname(arg)};
      }
      assert includeDirs == before + grabbed + source;
      if arg == "-I" {
        grabNextAsIncludeDir := true;
      }
      if StartsWith(arg, "-I") {
        var includeDir := arg[2..];
        if includeDir != "" {
          includeDirs := includeDirs + {includeDir};
        }
      }
      assert includeDirs == before + grabbed + OwnRoots(arg, dirname) by {
        UnionMoveLast(before, grabbed, source, if StartsWith(arg, "-I") && |arg| > 2 then {arg[2..]} else {});
      }
      clangArgs := clangArgs + [arg];
      UnionSwap(before, grabbed, OwnRoots(arg, dirname));
    }
    assert argv[..|argv|] == argv;
    IntendedRootsCollectedAreIntended(argv, |argv|, dirname);
  }

  /** `parse_args` built on the corrected argument loop. */
  method ParseArgsCorrected(argv: seq<string>, clangOutput: seq<string>, dirname: string -> string)
    returns (parsed: ParsedArgs)
    ensures parsed.includeDirs == IntendedIncludeRoots(argv, dirname)
    ensures parsed.clangArgs == IncludePairs(StripAll(CapturedLines(clangOutput, |clangOutput|))) + argv
  {
    var includeDirs, clangArgs := ScanArgumentsCorrected(argv, dirname);
    var defaultIncludes := ScanClangIncludes(clangOutput);
    var defaultArgs := DefaultIncludeArgs(defaultIncludes);
    parsed := ParsedArgs(includeDirs, defaultArgs + clangArgs);
  }

  /** With the correction, the argument after a bare `-I` is an include root. */
  lemma SeparateIncludeDirKept(argv: seq<string>, i: nat, dirname: string -> string)
    requires i + 1 < |argv| && argv[i] == "-I"
    ensures argv[i + 1] in IntendedIncludeRoots(argv, dirname)
  {
    assert AfterBareInclude(argv, i + 1);
  }

  // ---------------------------------------------------------------------
  // clean_walk
  // ---------------------------------------------------------------------

  /** One step of a directory walk: a directory, its subdirectories and its files. */
  datatype WalkEntry = WalkEntry(root: string, dirs: seq<string>, files: seq<string>)

  /** Every file of every entry, joined to its entry's directory. */
  function WalkedFiles(walk: seq<WalkEntry>, join: (string, string) -> string): set<string>
  {
    set i, j | 0 <= i < |walk| && 0 <= j < |walk[i].files| :: join(walk[i].root, walk[i].files[j])
  }

  lemma WalkedFilesAppend(walk: seq<WalkEntry>, t: WalkEntry, join: (string, string) -> string)
    ensures WalkedFiles(walk + [t], join) == WalkedFiles(walk, join) + (set f | f in t.files :: join(t.root, f))
  {
    var w := walk + [t];
    forall x | x in WalkedFiles(w, join)
      ensures x in WalkedFiles(walk, join) + (set f | f in t.files :: join(t.root, f))
    {
      var i, j :| 0 <= i < |w| && 0 <= j < |w[i].files| && x == join(w[i].root, w[i].files[j]);
      if i < |walk| {
        assert w[i] == walk[i];
      } else {
        assert w[i].files[j] in t.files;
      }
    }
    forall x | x in WalkedFiles(walk, join) + (set f | f in t.files :: join(t.root, f))
      ensures x in WalkedFiles(w, join)
    {
      if x in WalkedFiles(walk, join) {
        var i, j :| 0 <= i < |walk| && 0 <= j < |walk[i].files| && x == join(walk[i].root, walk[i].files[j]);
        assert w[i] == walk[i];
      } else {
        var f :| f in t.files && x == join(t.root, f);
        var j :| 0 <= j < |t.files| && t.files[j] == f;
        assert w[|walk|] == t;
      }
    }
  }

  /** `clean_walk`: the union, over the walk, of each entry's joined file paths. */
  method CleanWalk(walk: seq<WalkEntry>, join: (string, string) -> string) returns (files: set<string>)
    ensures files == WalkedFiles(walk, join)
  {
    files := {};
    for i := 0 to |walk|
      invariant files == WalkedFiles(walk[..i], join)
    {
      var t := walk[i];
      WalkedFilesAppend(walk[..i], t, join);
      assert walk[..i + 1] == walk[..i] + [t];
      files := files + (set f | f in t.files :: join(t.root, f));
    }
    assert walk[..|walk|] == walk;
  }
}
