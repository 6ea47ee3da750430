/**
 * `ProcessFile`: a stylesheet is compiled by the dialect its extension names, and the CSS goes
 * next to it, onto the end of one aggregate file, or into an output directory, as the record's
 * `output` says. The compilers themselves are a parameter (`Compiler`); only their verdict on a
 * file's text matters here.
 */
module Dispatch {
  import opened Wrappers
  import opened Paths
  import opened Fs
  import opened Configs

  datatype Dialect = Less | Sass

  const LESS_EXT := ".less"
  const SASS_EXT := ".sass"
  const SCSS_EXT := ".scss"

  /** The compiler a file's extension selects, if any: LESS for `.less`, Sass for `.sass` and
      `.scss`, none for any other file. */
  function DialectOf(file: Path): (r: Option<Dialect>)
    ensures EndsWith(file, LESS_EXT) ==> r == Some(Less)
    ensures EndsWith(file, SASS_EXT) || EndsWith(file, SCSS_EXT) ==> r == Some(Sass)
    ensures r.None? <==> !EndsWith(file, LESS_EXT) && !EndsWith(file, SASS_EXT) && !EndsWith(file, SCSS_EXT)
  {
    if EndsWith(file, LESS_EXT) then Some(Less)
    else if EndsWith(file, SASS_EXT) || EndsWith(file, SCSS_EXT) then Some(Sass)
    else None
  }

  /** What a compiler makes of a file's text: CSS, or the message it fails with. */
  datatype Compiled = Css(text: string) | CompileError(message: string)

  /** A compiler for each dialect, given the file's path and text. */
  type Compiler = (Dialect, Path, string) -> Compiled

  /** Where compiled CSS goes. */
  datatype Route = Replace(path: Path) | AppendTo(path: Path) | IntoDirectory(path: Path)

  /**
   * No `output`: the sibling `.css` file. An `output` ending in `.css` (resolved to a full path by
   * normalisation): appended to. Any other `output`: a directory under the working directory,
   * which must be known (None where `Path.Combine` is given a null working directory).
   */
  function RouteOf(file: Path, c: ConfigValue): (r: Option<Route>)
    ensures r.None? <==> c.output.Some? && !IsAggregate(c.output.value) && c.workingDirectory.None?
    ensures r.Some? ==> (r.value.Replace? <==> c.output.None?)
    ensures r.Some? ==> (r.value.AppendTo? <==> c.output.Some? && IsAggregate(c.output.value))
    ensures r.Some? && r.value.AppendTo? ==> r.value.path == c.output.value
    ensures c.output.None? ==> r == Some(Replace(ChangeExtension(file, CSS_EXT)))
  {
    match c.output
    case None => Some(Replace(ChangeExtension(file, CSS_EXT)))
    case Some(out) =>
      if IsAggregate(out) then Some(AppendTo(out))
      else if c.workingDirectory.None? then None
      else Some(IntoDirectory(Combine3(c.workingDirectory.value, out, FileNameWithoutExtension(file) + CSS_EXT)))
  }

  /** The text a file holds, where a missing file counts as empty. */
  function TextOf(fs: FsState, p: Path): string {
    if p in fs.files then fs.files[p] else ""
  }

  /** Every file other than `p` is as it was. */
  ghost predicate OnlyWrites(a: FsState, b: FsState, p: Path) {
    forall q :: q != p ==> (q in a.files <==> q in b.files) && (q in a.files ==> a.files[q] == b.files[q])
  }

  /** Directories only appear, and every file that is not a `.css` file is as it was. */
  ghost predicate SourcesKept(a: FsState, b: FsState) {
    && a.dirs <= b.dirs
    && forall q :: !EndsWith(q, CSS_EXT) ==>
         (q in a.files <==> q in b.files) && (q in a.files ==> a.files[q] == b.files[q])
  }

  lemma SourcesKeptTransitive(a: FsState, b: FsState, c: FsState)
    requires SourcesKept(a, b) && SourcesKept(b, c)
    ensures SourcesKept(a, c)
  {
  }

  /** The disk after the CSS `text` takes its route. */
  function Deliver(fs: FsState, route: Route, text: string): (r: FsState)
    ensures OnlyWrites(fs, r, route.path) && route.path in r.files
    ensures r.files[route.path] == (if route.AppendTo? then TextOf(fs, route.path) else "") + text
    ensures !route.IntoDirectory? ==> r.dirs == fs.dirs
    ensures route.IntoDirectory? ==> MadeDirectory(fs.dirs, r.dirs, DirectoryName(route.path))
  {
    match route
    case Replace(p) => Write(fs, p, text)
    case AppendTo(p) => Append(fs, p, text)
    case IntoDirectory(p) => Write(MakeDirectory(fs, DirectoryName(p)), p, text)
  }

  /** A stylesheet ends in a dot and four letters. */
  lemma StylesheetSuffix(p: Path)
    requires DialectOf(p).Some?
    ensures |p| >= 5 && p[|p| - 5..] in {LESS_EXT, SASS_EXT, SCSS_EXT}
  {
  }

  lemma StylesheetIsNotCss(p: Path)
    requires DialectOf(p).Some?
    ensures !EndsWith(p, CSS_EXT)
  {
    StylesheetSuffix(p);
    assert p[|p| - 4] == p[|p| - 5..][1] != '.';
  }

  /** Every route a stylesheet can take ends in a `.css` file. */
  lemma RouteIsCss(file: Path, c: ConfigValue)
    requires DialectOf(file).Some? && RouteOf(file, c).Some?
    ensures EndsWith(RouteOf(file, c).value.path, CSS_EXT)
  {
    var route := RouteOf(file, c).value;
    match route
    case Replace(p) =>
      var k := ExtensionStart(file);
      assert p == file[..k] + CSS_EXT && p[|p| - |CSS_EXT|..] == CSS_EXT;
    case AppendTo(_) =>
    case IntoDirectory(p) =>
      var name := FileNameWithoutExtension(file) + CSS_EXT;
      CombineEndsWith(Combine(c.workingDirectory.value, c.output.value), name);
      assert name[|name| - |CSS_EXT|..] == CSS_EXT;
      EndsWithTransitive(p, name, CSS_EXT);
  }

  /**
   * `ProcessFile` on the disk value: a file of any other extension is ignored; reading,
   * compiling and routing can each fail, and a failure writes nothing.
   */
  function FileSpec(fs: FsState, file: Path, c: ConfigValue, compile: Compiler): (r: Outcome)
    ensures r.err.Some? ==> r.fs == fs
    ensures SourcesKept(fs, r.fs)
    ensures DialectOf(file).None? ==> r == Ok(fs)
    ensures DialectOf(file).Some? ==>
      (r.err.None? <==> file in fs.files && compile(DialectOf(file).value, file, fs.files[file]).Css? && RouteOf(file, c).Some?)
    ensures DialectOf(file).Some? && file !in fs.files ==> r.err == Some(ReadFailed(file))
    ensures DialectOf(file).Some? && file in fs.files && compile(DialectOf(file).value, file, fs.files[file]).CompileError? ==>
      r.err == Some(CompileFailed(file, compile(DialectOf(file).value, file, fs.files[file]).message))
    ensures DialectOf(file).Some? && file in fs.files && RouteOf(file, c).None? ==>
      compile(DialectOf(file).value, file, fs.files[file]).Css? ==> r.err == Some(NoWorkingDirectory(file))
    ensures r.err.None? && DialectOf(file).Some? ==>
      && file in fs.files && compile(DialectOf(file).value, file, fs.files[file]).Css?
      && RouteOf(file, c).Some?
      && var route := RouteOf(file, c).value;
         var text := compile(DialectOf(file).value, file, fs.files[file]).text;
         && OnlyWrites(fs, r.fs, route.path) && route.path in r.fs.files
         && r.fs.files[route.path] == (if route.AppendTo? then TextOf(fs, route.path) else "") + text
         && (!route.IntoDirectory? ==> r.fs.dirs == fs.dirs)
         && (route.IntoDirectory? ==> MadeDirectory(fs.dirs, r.fs.dirs, DirectoryName(route.path)))
  {
    match DialectOf(file)
    case None => Ok(fs)
    case Some(d) =>
      if file !in fs.files then Outcome(fs, Some(ReadFailed(file)))
      else
        match compile(d, file, fs.files[file])
        case CompileError(msg) => Outcome(fs, Some(CompileFailed(file, msg)))
        case Css(text) =>
          match RouteOf(file, c)
          case None => Outcome(fs, Some(NoWorkingDirectory(file)))
          case Some(route) =>
            RouteIsCss(file, c);
            Ok(Deliver(fs, route, text))
  }

  /** `ProcessFile`. */
  method ProcessFile(file: Path, c: ConfigValue, fs: FileSystem, compile: Compiler) returns (err: Option<Error>)
    modifies fs
    ensures Outcome(fs.State(), err) == FileSpec(old(fs.State()), file, c, compile)
  {
    var dialect: Option<Dialect> := None;
    if EndsWith(file, LESS_EXT) {
      dialect := Some(Less);
    } else if EndsWith(file, SASS_EXT) || EndsWith(file, SCSS_EXT) {
      dialect := Some(Sass);
    }
    if dialect.None? {
      return None;
    }
    if !fs.FileExists(file) {
      return Some(ReadFailed(file));
    }
    var result := compile(dialect.value, file, fs.files[file]);
    if result.CompileError? {
      return Some(CompileFailed(file, result.message));
    }
    if c.output.None? {
      fs.WriteAllText(ChangeExtension(file, CSS_EXT), result.text);
    } else if EndsWith(c.output.value, CSS_EXT) {
      fs.AppendAllText(c.output.value, result.text);
    } else {
      if c.workingDirectory.None? {
        return Some(NoWorkingDirectory(file));
      }
      var fullName := Combine3(c.workingDirectory.value, c.output.value, FileNameWithoutExtension(file) + CSS_EXT);
      fs.CreateDirectory(DirectoryName(fullName));
      fs.WriteAllText(fullName, result.text);
    }
    err := None;
  }

  /** The files of a selection, in order, each one not excluded passed to `ProcessFile`; the
      first failure aborts the rest. */
  function FilesSpec(fs: FsState, files: seq<Path>, excludes: set<Path>, c: ConfigValue, compile: Compiler): (r: Outcome)
    ensures SourcesKept(fs, r.fs)
    decreases |files|
  {
    if files == [] then Ok(fs)
    else if files[0] in excludes then FilesSpec(fs, files[1..], excludes, c, compile)
    else
      var o := FileSpec(fs, files[0], c, compile);
      if o.err.Some? then o else FilesSpec(o.fs, files[1..], excludes, c, compile)
  }

  /** The loop over one selection of files in `ProcessDirectory`. */
  method ProcessFiles(files: seq<Path>, excludes: set<Path>, c: ConfigValue, fs: FileSystem, compile: Compiler)
    returns (err: Option<Error>)
    modifies fs
    ensures Outcome(fs.State(), err) == FilesSpec(old(fs.State()), files, excludes, c, compile)
  {
    for i := 0 to |files|
      invariant FilesSpec(fs.State(), files[i..], excludes, c, compile)
             == FilesSpec(old(fs.State()), files, excludes, c, compile)
    {
      assert files[i..][1..] == files[i + 1..];
      if files[i] !in excludes {
        err := ProcessFile(files[i], c, fs, compile);
        if err.Some? {
          return;
        }
      }
    }
    err := None;
  }

  /** Processing two selections one after the other is processing their concatenation. */
  lemma {:induction false} FilesSpecConcat(fs: FsState, a: seq<Path>, b: seq<Path>, excludes: set<Path>,
                                           c: ConfigValue, compile: Compiler)
    ensures FilesSpec(fs, a + b, excludes, c, compile) ==
      var o := FilesSpec(fs, a, excludes, c, compile);
      if o.err.Some? then o else FilesSpec(o.fs, b, excludes, c, compile)
    decreases |a|
  {
    if a == [] {
      assert a + b == b;
    } else {
      assert (a + b)[1..] == a[1..] + b;
      if a[0] in excludes {
        FilesSpecConcat(fs, a[1..], b, excludes, c, compile);
      } else {
        var o := FileSpec(fs, a[0], c, compile);
        if o.err.None? {
          FilesSpecConcat(o.fs, a[1..], b, excludes, c, compile);
        }
      }
    }
  }

  /** The files of a selection that are not excluded, in order. */
  function Unexcluded(files: seq<Path>, excludes: set<Path>): seq<Path>
  {
    if files == [] then []
    else (if files[0] in excludes then [] else [files[0]]) + Unexcluded(files[1..], excludes)
  }

  /** The filtered selection holds exactly the selected files that are not excluded. */
  lemma {:induction false} UnexcludedMembers(files: seq<Path>, excludes: set<Path>)
    ensures forall p :: p in Unexcluded(files, excludes) <==> p in files && p !in excludes
    decreases |files|
  {
    if files != [] {
      UnexcludedMembers(files[1..], excludes);
      UnexcludedStep(files, excludes);
      assert forall p :: p in files <==> p == files[0] || p in files[1..];
    }
  }

  /** The filter of a non-empty selection: its first file, unless excluded, then the filter of the rest. */
  lemma UnexcludedStep(files: seq<Path>, excludes: set<Path>)
    requires files != []
    ensures Unexcluded(files, excludes) == (if files[0] in excludes then [] else [files[0]]) + Unexcluded(files[1..], excludes)
  {
  }

  /** Filtering keeps the selection's order: the filter of two selections one after the other is
      their filters one after the other. */
  lemma {:induction false} UnexcludedConcat(a: seq<Path>, b: seq<Path>, excludes: set<Path>)
    ensures Unexcluded(a + b, excludes) == Unexcluded(a, excludes) + Unexcluded(b, excludes)
    decreases |a|
  {
    if a == [] {
      assert a + b == b;
    } else {
      var head := if a[0] in excludes then [] else [a[0]];
      var x, y := Unexcluded(a[1..], excludes), Unexcluded(b, excludes);
      calc {
        Unexcluded(a + b, excludes);
      == { UnexcludedStep(a + b, excludes); assert (a + b)[0] == a[0] && (a + b)[1..] == a[1..] + b; }
        head + Unexcluded(a[1..] + b, excludes);
      == { UnexcludedConcat(a[1..], b, excludes); }
        head + (x + y);
      == { Reassociate(head, x, y); }
        (head + x) + y;
      == { UnexcludedStep(a, excludes); }
        Unexcluded(a, excludes) + y;
      }
    }
  }

  lemma Reassociate<T>(h: seq<T>, x: seq<T>, y: seq<T>)
    ensures h + (x + y) == (h + x) + y
  {
  }

  /** A single file is kept exactly when it is not excluded. */
  lemma UnexcludedSingle(f: Path, excludes: set<Path>)
    ensures Unexcluded([f], excludes) == if f in excludes then [] else [f]
  {
    UnexcludedStep([f], excludes);
    assert [f][1..] == [];
  }

  /** An excluded file is as good as absent from the selection. */
  lemma {:induction false} ExcludedFilesAreSkipped(fs: FsState, files: seq<Path>, excludes: set<Path>,
                                                   c: ConfigValue, compile: Compiler)
    ensures FilesSpec(fs, files, excludes, c, compile) == FilesSpec(fs, Unexcluded(files, excludes), {}, c, compile)
    decreases |files|
  {
    if files != [] {
      var u := Unexcluded(files, excludes);
      if files[0] in excludes {
        assert u == Unexcluded(files[1..], excludes);
        ExcludedFilesAreSkipped(fs, files[1..], excludes, c, compile);
      } else {
        assert u[0] == files[0] && u[1..] == Unexcluded(files[1..], excludes);
        var o := FileSpec(fs, files[0], c, compile);
        if o.err.None? {
          ExcludedFilesAreSkipped(o.fs, files[1..], excludes, c, compile);
        }
      }
    }
  }

  /** The four extensions: one leading dot, no separator. */
  lemma ExtensionMarks(ext: string)
    requires ext in {CSS_EXT, LESS_EXT, SASS_EXT, SCSS_EXT}
    ensures IsExtensionMark(ext)
  {
    assert ext[0] == '.' && forall j :: 0 < j < |ext| ==> ext[j] != '.' && ext[j] != Sep;
  }

  /**
   * Without an `output`, a stylesheet compiles to the file beside it: the same path with its
   * five-character extension replaced by `.css`, so with the same directory and name.
   */
  lemma SiblingOutput(file: Path, c: ConfigValue)
    requires DialectOf(file).Some? && c.output.None?
    ensures RouteOf(file, c).Some? && RouteOf(file, c).value.Replace?
    ensures var css := RouteOf(file, c).value.path;
      && css == file[..|file| - 5] + CSS_EXT
      && css != file && EndsWith(css, CSS_EXT)
      && DirectoryName(css) == DirectoryName(file)
      && FileNameWithoutExtension(css) == FileNameWithoutExtension(file)
  {
    StylesheetSuffix(file);
    var n := |file| - 5;
    var stem, ext := file[..n], file[n..];
    assert file == stem + ext;
    ExtensionMarks(ext);
    ExtensionMarks(CSS_EXT);
    ChangeExtensionOf(stem, ext, CSS_EXT);
    var css := stem + CSS_EXT;
    SwapExtensionKeepsDirectory(stem, CSS_EXT, ext);
    SwapExtensionKeepsName(stem, CSS_EXT, ext);
    assert css[|css| - 4..] == CSS_EXT;
  }

  /**
   * With an `output` directory, a stylesheet compiles into that directory, under the working
   * directory, with its own name and the `.css` extension; separators at the end of `output`
   * make no difference.
   */
  lemma DirectoryModeOutput(file: Path, c: ConfigValue)
    requires DialectOf(file).Some?
    requires c.output.Some? && !IsAggregate(c.output.value) && c.workingDirectory.Some?
    ensures RouteOf(file, c).Some? && RouteOf(file, c).value.IntoDirectory?
    ensures var dest := RouteOf(file, c).value.path;
      && DirectoryName(dest) == TrimEnd(Combine(c.workingDirectory.value, c.output.value))
      && FileNameWithoutExtension(dest) == FileNameWithoutExtension(file)
      && EndsWith(dest, CSS_EXT)
  {
    var base := Combine(c.workingDirectory.value, c.output.value);
    var name := FileNameWithoutExtension(file);
    NamesHoldNoSeparator(file);
    ExtensionMarks(CSS_EXT);
    CombineFileWithExtension(base, name, CSS_EXT);
  }

  /** Delivering the same CSS again along a route that replaces its destination changes nothing. */
  lemma DeliverTwice(fs: FsState, route: Route, text: string)
    requires !route.AppendTo?
    ensures Deliver(Deliver(fs, route, text), route, text) == Deliver(fs, route, text)
  {
    var r := Deliver(fs, route, text);
    assert r.files[route.path := text] == r.files;
    if route.IntoDirectory? {
      var d := DirectoryName(route.path);
      assert r.dirs + Ancestors(d) == r.dirs;
    }
  }

  /**
   * Compiling a file again, where its CSS replaces rather than extends an output, changes
   * nothing: the output holds the same text and the source is untouched.
   */
  lemma RecompileIsIdempotent(fs: FsState, file: Path, c: ConfigValue, compile: Compiler)
    requires c.output.None? || !IsAggregate(c.output.value)
    requires FileSpec(fs, file, c, compile).err.None?
    ensures var o := FileSpec(fs, file, c, compile); FileSpec(o.fs, file, c, compile) == o
  {
    var o := FileSpec(fs, file, c, compile);
    if DialectOf(file).Some? {
      StylesheetIsNotCss(file);
      assert file in o.fs.files && o.fs.files[file] == fs.files[file];
      var route := RouteOf(file, c).value;
      var text := compile(DialectOf(file).value, file, fs.files[file]).text;
      assert o.fs == Deliver(fs, route, text);
      DeliverTwice(fs, route, text);
    }
  }

  /** The CSS one file of a selection contributes: none when it is excluded or is not a
      stylesheet, and none when it cannot be read or compiled. */
  function CssOf(fs: FsState, f: Path, excludes: set<Path>, compile: Compiler): string {
    if f in excludes || DialectOf(f).None? || f !in fs.files then ""
    else match compile(DialectOf(f).value, f, fs.files[f])
      case Css(text) => text
      case CompileError(_) => ""
  }

  /** The CSS of the selected files, concatenated in selection order. */
  function Concatenated(fs: FsState, files: seq<Path>, excludes: set<Path>, compile: Compiler): string
    decreases |files|
  {
    if files == [] then ""
    else CssOf(fs, files[0], excludes, compile) + Concatenated(fs, files[1..], excludes, compile)
  }

  /** The concatenation reads only source files. */
  lemma {:induction false} ConcatenatedReadsSources(a: FsState, b: FsState, files: seq<Path>,
                                                    excludes: set<Path>, compile: Compiler)
    requires SourcesKept(a, b)
    ensures Concatenated(a, files, excludes, compile) == Concatenated(b, files, excludes, compile)
    decreases |files|
  {
    if files != [] {
      if DialectOf(files[0]).Some? {
        StylesheetIsNotCss(files[0]);
      }
      ConcatenatedReadsSources(a, b, files[1..], excludes, compile);
    }
  }

  /** One file compiled under an aggregate `output` extends that file by its CSS. */
  lemma AggregateStep(fs: FsState, f: Path, excludes: set<Path>, c: ConfigValue, compile: Compiler)
    requires c.output.Some? && IsAggregate(c.output.value) && f !in excludes
    requires FileSpec(fs, f, c, compile).err.None?
    ensures var r := FileSpec(fs, f, c, compile).fs;
      && OnlyWrites(fs, r, c.output.value)
      && TextOf(r, c.output.value) == TextOf(fs, c.output.value) + CssOf(fs, f, excludes, compile)
  {
  }

  /** One file of a selection that is not excluded, then the rest. */
  lemma FilesSpecStep(fs: FsState, files: seq<Path>, excludes: set<Path>, c: ConfigValue, compile: Compiler)
    requires files != [] && files[0] !in excludes
    ensures FilesSpec(fs, files, excludes, c, compile) ==
      var o := FileSpec(fs, files[0], c, compile);
      if o.err.Some? then o else FilesSpec(o.fs, files[1..], excludes, c, compile)
  {
  }

  lemma ConcatenatedStep(fs: FsState, files: seq<Path>, excludes: set<Path>, compile: Compiler)
    requires files != []
    ensures Concatenated(fs, files, excludes, compile)
         == CssOf(fs, files[0], excludes, compile) + Concatenated(fs, files[1..], excludes, compile)
  {
  }

  lemma OnlyWritesTransitive(a: FsState, b: FsState, c: FsState, p: Path)
    requires OnlyWrites(a, b, p) && OnlyWrites(b, c, p)
    ensures OnlyWrites(a, c, p)
  {
  }

  /**
   * With an aggregate `output`, a selection processed without failure appends the CSS of its
   * files, in selection order, to that one file, and writes no other file.
   */
  lemma {:induction false} AggregateCollects(fs: FsState, files: seq<Path>, excludes: set<Path>,
                                             c: ConfigValue, compile: Compiler)
    requires c.output.Some? && IsAggregate(c.output.value)
    requires FilesSpec(fs, files, excludes, c, compile).err.None?
    ensures var r := FilesSpec(fs, files, excludes, c, compile).fs;
      && OnlyWrites(fs, r, c.output.value)
      && TextOf(r, c.output.value) == TextOf(fs, c.output.value) + Concatenated(fs, files, excludes, compile)
    decreases |files|
  {
    var out := c.output.value;
    if files == [] {
      assert TextOf(fs, out) + "" == TextOf(fs, out);
    } else if files[0] in excludes {
      assert FilesSpec(fs, files, excludes, c, compile) == FilesSpec(fs, files[1..], excludes, c, compile);
      AggregateCollects(fs, files[1..], excludes, c, compile);
      ConcatenatedStep(fs, files, excludes, compile);
      assert CssOf(fs, files[0], excludes, compile) == "";
      assert "" + Concatenated(fs, files[1..], excludes, compile) == Concatenated(fs, files[1..], excludes, compile);
    } else {
      var f := files[0];
      var o := FileSpec(fs, f, c, compile);
      FilesSpecStep(fs, files, excludes, c, compile);
      assert o.err.None?;
      var r := FilesSpec(o.fs, files[1..], excludes, c, compile).fs;
      assert FilesSpec(fs, files, excludes, c, compile).fs == r;
      AggregateStep(fs, f, excludes, c, compile);
      AggregateCollects(o.fs, files[1..], excludes, c, compile);
      ConcatenatedReadsSources(fs, o.fs, files[1..], excludes, compile);
      ConcatenatedStep(fs, files, excludes, compile);
      AppendedInTurn(fs, o.fs, r, out, CssOf(fs, f, excludes, compile), Concatenated(fs, files[1..], excludes, compile));
    }
  }

  /** Two appends to one file, one after the other, append their texts in that order. */
  lemma AppendedInTurn(a: FsState, b: FsState, c: FsState, p: Path, x: string, y: string)
    requires OnlyWrites(a, b, p) && TextOf(b, p) == TextOf(a, p) + x
    requires OnlyWrites(b, c, p) && TextOf(c, p) == TextOf(b, p) + y
    ensures OnlyWrites(a, c, p) && TextOf(c, p) == TextOf(a, p) + (x + y)
  {
    OnlyWritesTransitive(a, b, c, p);
    Reassociate(TextOf(a, p), x, y);
  }
}
