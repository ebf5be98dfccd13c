/** The rc-file interpreter, `parseRC` and `addPath` in jakobmenu.c. Each
    logical line of an rc file is blank, a `path = <dir>` directive, a
    `useAllCategories = <int>` directive, or a syntax error that stops the
    rest of that file while keeping what was already collected. The global
    state the C code mutates is the explicit `Context` threaded through. */
module RcConfig {
  import opened Wrappers
  import opened Text
  import opened LineReader
  import opened KeyValue
  import opened Tilde
  import opened Seqs

  /** The search directories, most recently added first, and the fan-out
      flag. A directory is `None` when its tilde expansion failed: `addPath`
      links it into the list all the same. */
  datatype Context = Context(paths: seq<Option<string>>, useAllCategories: bool)

  const Initial := Context([], false)

  /** What one rc line asks for. */
  datatype Directive = Blank | SearchPath(path: string) | FanOut(on: bool) | SyntaxError

  /** How far `parseRC` got: the context, and the 1-based number of the line
      it stopped at, if it stopped on a syntax error. */
  datatype RcResult = RcResult(ctx: Context, error: Option<nat>)

  predicate IsDigit(c: char) {
    '0' <= c <= '9'
  }

  /** The longest run of decimal digits at the front of `s`. */
  function DigitRun(s: string): (r: string)
    ensures |r| <= |s| && r == s[..|r|]
    ensures forall i :: 0 <= i < |r| ==> IsDigit(r[i])
    ensures |r| < |s| ==> !IsDigit(s[|r|])
  {
    if s != [] && IsDigit(s[0]) then [s[0]] + DigitRun(s[1..]) else []
  }

  /** The number a string of decimal digits denotes. */
  function DecimalValue(d: string): nat
    requires forall i :: 0 <= i < |d| ==> IsDigit(d[i])
  {
    if d == [] then 0
    else DecimalValue(d[..|d| - 1]) * 10 + DigitValue(d[|d| - 1])
  }

  function DigitValue(c: char): nat
    requires IsDigit(c)
  {
    (c as int) - ('0' as int)
  }

  /** The digits `atoi` reads: after leading whitespace and an optional sign. */
  function AtoiDigits(s: string): string
  {
    var t := TrimLeft(s);
    if t != [] && (t[0] == '-' || t[0] == '+') then DigitRun(t[1..]) else DigitRun(t)
  }

  /** C's `atoi`, without the undefined behaviour on overflow. */
  function Atoi(s: string): int
  {
    var t := TrimLeft(s);
    var magnitude: int := DecimalValue(AtoiDigits(s));
    if t != [] && t[0] == '-' then -magnitude else magnitude
  }

  lemma {:induction false} DecimalValueZero(d: string)
    requires forall i :: 0 <= i < |d| ==> IsDigit(d[i])
    ensures DecimalValue(d) == 0 <==> forall i :: 0 <= i < |d| ==> d[i] == '0'
    decreases |d|
  {
    if d != [] {
      var init := d[..|d| - 1];
      DecimalValueZero(init);
      if DecimalValue(d) == 0 {
        assert forall i :: 0 <= i < |init| ==> d[i] == init[i];
      }
    }
  }

  /** The fan-out flag is set iff `atoi` reads a non-zero digit: `1`, `007`
      and `-2` turn it on, `0`, `true` and `yes` leave it off. */
  lemma AtoiNonZero(s: string)
    ensures Atoi(s) != 0 <==> exists i :: 0 <= i < |AtoiDigits(s)| && AtoiDigits(s)[i] != '0'
  {
    DecimalValueZero(AtoiDigits(s));
  }

  /** The reading of one rc line (already cut at its first NUL). A line
      without `=` is blank iff it is all whitespace; a key/value line is a
      directive iff its key is `path` or `useAllCategories` and its value is
      not empty; everything else is a syntax error. */
  function Classify(line: string): (r: Directive)
    ensures r == Blank <==> '=' !in line && AllSpace(line)
    ensures r.SearchPath? <==> '=' in line && SplitByEquals(line).value.key == "path" && SplitByEquals(line).value.value != []
    ensures r.SearchPath? ==> r.path == SplitByEquals(line).value.value
    ensures r.FanOut? <==> '=' in line && SplitByEquals(line).value.key == "useAllCategories" && SplitByEquals(line).value.value != []
    ensures r.FanOut? ==> r.on == (Atoi(SplitByEquals(line).value.value) != 0)
  {
    match SplitByEquals(line)
    case None => if AllSpace(line) then Blank else SyntaxError
    case Some(Pair(key, value)) =>
      if value == [] then SyntaxError
      else if key == "path" then SearchPath(value)
      else if key == "useAllCategories" then FanOut(Atoi(value) != 0)
      else SyntaxError
  }

  /** The directive a raw logical line carries. */
  function DirectiveOf(line: string): Directive {
    Classify(CStr(line))
  }

  /** `addPath`: the expanded directory goes on the front of the list. */
  function AddPath(ctx: Context, path: string, home: Option<string>): (r: Context)
    ensures r.paths == [Expand(path, home)] + ctx.paths
    ensures r.useAllCategories == ctx.useAllCategories
  {
    ctx.(paths := [Expand(path, home)] + ctx.paths)
  }

  /** The directives of a file's logical lines, in order. */
  function Directives(lines: seq<string>): (r: seq<Directive>)
    ensures |r| == |lines|
    ensures forall i :: 0 <= i < |lines| ==> r[i] == DirectiveOf(lines[i])
  {
    Map(DirectiveOf, lines)
  }

  /** The read loop of `parseRC` over the directives of one file;
      `lineNo` lines precede `ds`. */
  function Run(ctx: Context, ds: seq<Directive>, home: Option<string>, lineNo: nat): (r: RcResult)
    ensures r.error.Some? ==> lineNo < r.error.value <= lineNo + |ds|
    decreases |ds|
  {
    if ds == [] then RcResult(ctx, None)
    else match ds[0]
      case Blank => Run(ctx, ds[1..], home, lineNo + 1)
      case SearchPath(p) => Run(AddPath(ctx, p, home), ds[1..], home, lineNo + 1)
      case FanOut(on) => Run(ctx.(useAllCategories := on), ds[1..], home, lineNo + 1)
      case SyntaxError => RcResult(ctx, Some(lineNo + 1))
  }

  /** The directives of an rc file; none when it cannot be opened. */
  function FileDirectives(contents: Option<string>): seq<Directive> {
    match contents
    case None => []
    case Some(text) => Directives(Lines(text, true))
  }

  /** `parseRC` on one file's contents; `None` is a file that cannot be
      opened, which leaves the context as it was. The file's accepted `path`
      lines go on the front of the list, the last one first; its last
      accepted `useAllCategories` line decides the flag; and it reports an
      error iff some line is a syntax error. */
  function ParseRc(ctx: Context, contents: Option<string>, home: Option<string>): (r: RcResult)
    ensures var acc := Accepted(FileDirectives(contents));
            && r.ctx.paths == Reverse(PathsOf(acc, home)) + ctx.paths
            && r.ctx.useAllCategories == LastFlag(acc, ctx.useAllCategories)
    ensures r.error.Some? <==> SyntaxError in FileDirectives(contents)
  {
    var ds := FileDirectives(contents);
    RunSpec(ctx, ds, home, 0);
    StopsIffSyntaxError(ds);
    match contents
    case None => RcResult(ctx, None)
    case Some(text) => Run(ctx, ds, home, 0)
  }

  // An independent description of what one file contributes.

  /** The directives `parseRC` acts on: those before the first syntax error. */
  function Accepted(ds: seq<Directive>): (r: seq<Directive>)
    ensures |r| <= |ds| && r == ds[..|r|]
    ensures SyntaxError !in r
    ensures |r| < |ds| ==> ds[|r|] == SyntaxError
  {
    if ds == [] || ds[0] == SyntaxError then []
    else [ds[0]] + Accepted(ds[1..])
  }

  /** Some directive is left unaccepted iff there is a syntax error. */
  lemma StopsIffSyntaxError(ds: seq<Directive>)
    ensures |Accepted(ds)| < |ds| <==> SyntaxError in ds
  {
    var acc := Accepted(ds);
    if |acc| < |ds| {
      assert ds[|acc|] == SyntaxError;
    } else {
      assert acc == ds;
    }
  }

  /** The expanded `path` values of `ds`, in file order. */
  function PathsOf(ds: seq<Directive>, home: Option<string>): seq<Option<string>>
  {
    if ds == [] then []
    else match ds[0]
      case SearchPath(p) => [Expand(p, home)] + PathsOf(ds[1..], home)
      case _ => PathsOf(ds[1..], home)
  }

  /** The value of the last `useAllCategories` directive in `ds`, or `dflt`
      if there is none. */
  function LastFlag(ds: seq<Directive>, dflt: bool): bool
  {
    if ds == [] then dflt
    else match ds[|ds| - 1]
      case FanOut(on) => on
      case _ => LastFlag(ds[..|ds| - 1], dflt)
  }

  function Reverse<T>(s: seq<T>): (r: seq<T>)
    ensures |r| == |s|
    ensures forall i :: 0 <= i < |s| ==> r[i] == s[|s| - 1 - i]
  {
    if s == [] then [] else Reverse(s[1..]) + [s[0]]
  }

  /** The flag a directive leaves behind. */
  function FlagAfter(d: Directive, flag: bool): bool {
    if d.FanOut? then d.on else flag
  }

  lemma {:induction false} LastFlagCons(d: Directive, ds: seq<Directive>, dflt: bool)
    ensures LastFlag([d] + ds, dflt) == LastFlag(ds, FlagAfter(d, dflt))
    decreases |ds|
  {
    if ds == [] {
      assert [d] + ds == [d];
      assert [d][..0] == [];
    } else {
      var all := [d] + ds;
      assert all[..|all| - 1] == [d] + ds[..|ds| - 1];
      assert all[|all| - 1] == ds[|ds| - 1];
      LastFlagCons(d, ds[..|ds| - 1], dflt);
    }
  }

  /** What one rc file does: its accepted `path` lines go on the front of
      the list in reverse file order, the last accepted `useAllCategories`
      line decides the flag, and it reports an error iff some line is a
      syntax error, at the first such line. */
  lemma {:induction false} RunSpec(ctx: Context, ds: seq<Directive>, home: Option<string>, lineNo: nat)
    ensures MeetsRunSpec(ctx, ds, home, lineNo)
    decreases |ds|
  {
    if ds != [] && ds[0] != SyntaxError {
      RunSpec(NextContext(ctx, ds[0], home), ds[1..], home, lineNo + 1);
      RunSpecCons(ctx, ds, home, lineNo);
    } else if ds != [] {
      RunStopsAtError(ctx, ds, home, lineNo);
    }
  }

  /** The statement of `RunSpec`. */
  predicate MeetsRunSpec(ctx: Context, ds: seq<Directive>, home: Option<string>, lineNo: nat) {
    var r := Run(ctx, ds, home, lineNo);
    var acc := Accepted(ds);
    && r.ctx.paths == Reverse(PathsOf(acc, home)) + ctx.paths
    && r.ctx.useAllCategories == LastFlag(acc, ctx.useAllCategories)
    && r.error == (if |acc| < |ds| then Some(lineNo + |acc| + 1) else None)
  }

  /** The inductive step of `RunSpec`. */
  lemma RunSpecCons(ctx: Context, ds: seq<Directive>, home: Option<string>, lineNo: nat)
    requires ds != [] && ds[0] != SyntaxError
    requires MeetsRunSpec(NextContext(ctx, ds[0], home), ds[1..], home, lineNo + 1)
    ensures MeetsRunSpec(ctx, ds, home, lineNo)
  {
    RunCons(ctx, ds, home, lineNo);
    AcceptedCons(ds);
    AcceptedStep(ctx, ds[0], Accepted(ds[1..]), home);
  }

  lemma RunStopsAtError(ctx: Context, ds: seq<Directive>, home: Option<string>, lineNo: nat)
    requires ds != [] && ds[0] == SyntaxError
    ensures Run(ctx, ds, home, lineNo) == RcResult(ctx, Some(lineNo + 1))
    ensures Accepted(ds) == []
  {
  }

  lemma AcceptedCons(ds: seq<Directive>)
    requires ds != [] && ds[0] != SyntaxError
    ensures Accepted(ds) == [ds[0]] + Accepted(ds[1..])
  {
  }

  /** The context after one directive other than a syntax error. */
  function NextContext(ctx: Context, d: Directive, home: Option<string>): Context {
    match d
    case SearchPath(p) => AddPath(ctx, p, home)
    case FanOut(on) => ctx.(useAllCategories := on)
    case _ => ctx
  }

  lemma RunCons(ctx: Context, ds: seq<Directive>, home: Option<string>, lineNo: nat)
    requires ds != [] && ds[0] != SyntaxError
    ensures Run(ctx, ds, home, lineNo) == Run(NextContext(ctx, ds[0], home), ds[1..], home, lineNo + 1)
  {
  }

  /** One accepted directive in front of `acc`, seen both ways. */
  lemma AcceptedStep(ctx: Context, d: Directive, acc: seq<Directive>, home: Option<string>)
    requires d != SyntaxError
    ensures Reverse(PathsOf(acc, home)) + NextContext(ctx, d, home).paths
            == Reverse(PathsOf([d] + acc, home)) + ctx.paths
    ensures LastFlag(acc, NextContext(ctx, d, home).useAllCategories)
            == LastFlag([d] + acc, ctx.useAllCategories)
  {
    LastFlagCons(d, acc, ctx.useAllCategories);
    PathsStep(ctx, d, acc, home);
  }

  lemma PathsStep(ctx: Context, d: Directive, acc: seq<Directive>, home: Option<string>)
    requires d != SyntaxError
    ensures Reverse(PathsOf(acc, home)) + NextContext(ctx, d, home).paths
            == Reverse(PathsOf([d] + acc, home)) + ctx.paths
  {
    var p := PathsOf(acc, home);
    assert ([d] + acc)[1..] == acc;
    if d.SearchPath? {
      var x := Expand(d.path, home);
      assert PathsOf([d] + acc, home) == [x] + p;
      ReverseCons(x, p);
      assert Reverse(p) + ([x] + ctx.paths) == Reverse(p) + [x] + ctx.paths;
    }
  }

  lemma ReverseCons<T>(x: T, s: seq<T>)
    ensures Reverse([x] + s) == Reverse(s) + [x]
  {
    assert ([x] + s)[1..] == s;
  }

  /** Both rc files, system-wide then per-user, into one context: paths
      accumulate (the user file's first), and the flag is whichever file set
      it last, not the "or" of the two. */
  function ParseBoth(system: Option<string>, user: Option<string>, home: Option<string>): (r: Context)
    ensures var sys := ParseRc(Initial, system, home).ctx;
            var acc := Accepted(FileDirectives(user));
            && r.paths == Reverse(PathsOf(acc, home)) + sys.paths
            && r.useAllCategories == LastFlag(acc, sys.useAllCategories)
  {
    ParseRc(ParseRc(Initial, system, home).ctx, user, home).ctx
  }

  /** A file whose only line is neither blank nor a key/value pair stops at
      line 1 and adds nothing. */
  lemma NotKeyValueIsSyntaxError(ctx: Context, home: Option<string>, text: string)
    requires Plain(text, true) && '=' !in text && '\0' !in text && !AllSpace(text)
    ensures ParseRc(ctx, Some(text), home) == RcResult(ctx, Some(1))
  {
    assert Join([text], '\n') == text;
    LinesOfJoin([text], true);
    NoNulCStr(text);
    assert Directives([text]) == [SyntaxError];
  }

  lemma NotKeyValueExample(ctx: Context, home: Option<string>)
    ensures ParseRc(ctx, Some("not a kv pair"), home) == RcResult(ctx, Some(1))
  {
    var text := "not a kv pair";
    assert text[0] == 'n';
    NotKeyValueIsSyntaxError(ctx, home, text);
  }

  /** Two `path` lines leave the second directory before the first, ahead
      of the paths already collected: `path=/a` then `path=/b` gives `/b`,
      `/a`. */
  lemma PathsArePrepended(ctx: Context, home: Option<string>, a: string, b: string)
    requires PathValue(a) && PathValue(b)
    ensures ParseRc(ctx, Some("path=" + a + "\n" + "path=" + b), home).ctx.paths
            == [Expand(b, home), Expand(a, home)] + ctx.paths
  {
    TwoPathLines(a, b);
    RunTwoPaths(ctx, home, a, b);
  }

  lemma RunTwoPaths(ctx: Context, home: Option<string>, a: string, b: string)
    ensures Run(ctx, [SearchPath(a), SearchPath(b)], home, 0).ctx.paths
            == [Expand(b, home), Expand(a, home)] + ctx.paths
  {
    var ds := [SearchPath(a), SearchPath(b)];
    var one := AddPath(ctx, a, home);
    assert Run(ctx, ds, home, 0) == Run(one, ds[1..], home, 1);
    assert ds[1..] == [SearchPath(b)] && ds[1..][1..] == [];
    assert Run(one, [SearchPath(b)], home, 1) == Run(AddPath(one, b, home), [], home, 2);
  }

  /** A directory a `path` line can carry and the rc reader returns as is. */
  predicate PathValue(dir: string) {
    dir != [] && Trimmed(dir) && '\0' !in dir && Plain(dir, true) && '=' !in dir
  }

  lemma TwoPathLines(a: string, b: string)
    requires PathValue(a) && PathValue(b)
    ensures Directives(Lines("path=" + a + "\n" + "path=" + b, true)) == [SearchPath(a), SearchPath(b)]
  {
    PlainPathLine(a);
    PlainPathLine(b);
    assert "path=" + a + "\n" + "path=" + b == ("path=" + a) + "\n" + ("path=" + b);
    LinesOfTwo("path=" + a, "path=" + b, true);
    MapTwo(DirectiveOf, "path=" + a, "path=" + b);
    PathLine(a);
    PathLine(b);
  }

  lemma PlainPathLine(dir: string)
    requires PathValue(dir)
    ensures Plain("path=" + dir, true)
  {
    assert Plain("path=", true);
  }

  /** A `path=` line with a trimmed, NUL-free directory is a search-path
      directive for exactly that directory. */
  lemma PathLine(dir: string)
    requires dir != [] && Trimmed(dir) && '\0' !in dir
    ensures DirectiveOf("path=" + dir) == SearchPath(dir)
  {
    var line := "path=" + dir;
    assert '\0' !in line;
    NoNulCStr(line);
    PathSplit(dir);
  }

  lemma PathSplit(dir: string)
    requires Trimmed(dir)
    ensures SplitByEquals("path=" + dir) == Some(Pair("path", dir))
  {
    assert "path=" + dir == [] + "path" + [] + ['='] + [] + dir + [];
    assert Trimmed("path") && '=' !in "path";
    SplitOfPadded([], "path", [], [], dir, []);
  }

  /** `useAllCategories = true` leaves fan-out off: `atoi("true")` is 0. */
  lemma TrueIsNotANumber()
    ensures Atoi("true") == 0
  {
    assert TrimLeft("true") == "true";
    assert DigitRun("true") == [];
  }
}
