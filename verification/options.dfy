/** The command line: `-r` / `--recursive` and the source paths, as `ParseOptions` reads them. */
module Options {
  import opened Wrappers
  import opened Paths

  /**
   * `Options`. `excludes` is None where the program's `Excludes` is null, which means the
   * exclusions come from git; no argument sets it.
   */
  datatype Options = Options(recursive: bool, srcs: seq<Path>, excludes: Option<seq<Path>>)

  predicate IsRecursiveFlag(arg: string) {
    arg == "-r" || arg == "--recursive"
  }

  predicate IsDashArg(arg: string) {
    |arg| > 0 && arg[0] == '-'
  }

  /** An argument that does not make `ParseOptions` throw. */
  predicate Accepted(arg: string) {
    |arg| > 0 && (arg[0] == '-' ==> IsRecursiveFlag(arg))
  }

  /** The exception a rejected argument raises. */
  function ArgError(arg: string): Error {
    if arg == "" then EmptyArgument else UnknownOption(arg)
  }

  /** `Path.GetFullPath(p)`, resolved against the current directory `cwd`. */
  function FullPath(cwd: Path, p: Path): Path {
    Combine(cwd, p)
  }

  /** The full paths of the arguments that are not dash arguments, in argument order. */
  function SourceArgs(cwd: Path, args: seq<string>): seq<Path> {
    if args == [] then []
    else
      var last := args[|args| - 1];
      SourceArgs(cwd, args[..|args| - 1]) + (if IsDashArg(last) then [] else [FullPath(cwd, last)])
  }

  /** Source arguments of consecutive argument lists follow one another: argument order is kept. */
  lemma {:induction false} SourceArgsConcat(cwd: Path, a: seq<string>, b: seq<string>)
    ensures SourceArgs(cwd, a + b) == SourceArgs(cwd, a) + SourceArgs(cwd, b)
    decreases |b|
  {
    if b != [] {
      var b' := b[..|b| - 1];
      assert (a + b)[..|a + b| - 1] == a + b';
      SourceArgsConcat(cwd, a, b');
    } else {
      assert a + b == a;
    }
  }

  /** Every source is the full path of some non-dash argument. */
  lemma {:induction false} SourcesComeFromArguments(cwd: Path, args: seq<string>, p: Path)
    requires p in SourceArgs(cwd, args)
    ensures exists i :: 0 <= i < |args| && !IsDashArg(args[i]) && p == FullPath(cwd, args[i])
  {
    var front := args[..|args| - 1];
    var last := |args| - 1;
    if p in SourceArgs(cwd, front) {
      SourcesComeFromArguments(cwd, front, p);
      var i :| 0 <= i < |front| && !IsDashArg(front[i]) && p == FullPath(cwd, front[i]);
      assert args[i] == front[i];
    } else {
      assert !IsDashArg(args[last]) && p == FullPath(cwd, args[last]);
    }
  }

  /** The full path of every non-dash argument is a source. */
  lemma ArgumentsBecomeSources(cwd: Path, args: seq<string>, i: int)
    requires 0 <= i < |args| && !IsDashArg(args[i])
    ensures FullPath(cwd, args[i]) in SourceArgs(cwd, args)
  {
    var before, after := args[..i + 1], args[i + 1..];
    assert args == before + after;
    SourceArgsConcat(cwd, before, after);
    assert before[..i + 1 - 1] == args[..i];
  }

  /**
   * `ParseOptions`: every argument is either exactly `-r`/`--recursive` or a source path;
   * the first argument that is neither (an empty one, or any other dash argument) aborts.
   */
  method ParseOptions(args: seq<string>, cwd: Path) returns (r: Result<Options>)
    ensures r.Success? <==> forall i :: 0 <= i < |args| ==> Accepted(args[i])
    ensures r.Failure? ==>
      exists i :: 0 <= i < |args| && !Accepted(args[i]) && r.error == ArgError(args[i]) &&
        forall j :: 0 <= j < i ==> Accepted(args[j])
    ensures r.Success? ==>
      && r.value.recursive == (exists i :: 0 <= i < |args| && IsRecursiveFlag(args[i]))
      && r.value.srcs == SourceArgs(cwd, args)
      && r.value.excludes == None
  {
    var options := Options(false, [], None);
    for i := 0 to |args|
      invariant forall j :: 0 <= j < i ==> Accepted(args[j])
      invariant options.recursive == (exists j :: 0 <= j < i && IsRecursiveFlag(args[j]))
      invariant options.srcs == SourceArgs(cwd, args[..i])
      invariant options.excludes == None
    {
      var str := args[i];
      assert args[..i + 1][..i] == args[..i];
      if |str| == 0 {
        return Failure(EmptyArgument);
      }
      if str[0] == '-' {
        if IsRecursiveFlag(str) {
          options := options.(recursive := true);
        } else {
          return Failure(UnknownOption(str));
        }
      } else {
        options := options.(srcs := options.srcs + [FullPath(cwd, str)]);
      }
    }
    assert args[..|args|] == args;
    r := Success(options);
  }
}
