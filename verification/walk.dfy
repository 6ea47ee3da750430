/**
 * The walk: `Process` visits each source path; `ProcessDirectory` loads the directory's
 * `cssbuilder.config.json` (or inherits the caller's configuration), and for each configuration
 * record either scans the three stylesheet extensions (and, when recursive, the subdirectories)
 * or processes the files the record's glob patterns select.
 *
 * The collaborators the walk calls but that are not modelled (the compilers, the glob matcher,
 * JSON deserialisation and git) are the fields of `Env`. Recursion into subdirectories is bounded
 * by a depth budget; exhausting it is the error `DepthExceeded`.
 */
module Walk {
  import opened Wrappers
  import opened Paths
  import opened Ordering
  import opened Fs
  import opened Configs
  import opened Dispatch
  import opened Excludes
  import opened Options

  const CONFIG_FILE_NAME := "cssbuilder.config.json"

  /** The extensions a directory is scanned for, in scan order. */
  const SCAN_ORDER := [LESS_EXT, SASS_EXT, SCSS_EXT]

  /** What deserialising a configuration file gives: a JSON error, the literal `null`, or a list
      of records, any of which may be `null`. */
  datatype ConfigDocument = Malformed | NullDocument | Entries(entries: seq<Option<ConfigValue>>)

  datatype Env = Env(
    compile: Compiler,
    /** The full paths the matcher's patterns select under a directory, given the files present. */
    glob: (seq<string>, Path, set<Path>) -> set<Path>,
    parse: string -> ConfigDocument,
    /** The output of git's listing of ignored paths when run in a directory; None when it fails. */
    git: Path -> Option<string>)

  /** A configuration file's records after loading and normalisation, and the disk after it. */
  datatype Loaded = Loaded(fs: FsState, err: Option<Error>, configs: seq<ConfigValue>)

  /** Records loaded earlier go in front of those loaded later; an error discards them. */
  function Prepend(vs: seq<ConfigValue>, l: Loaded): Loaded {
    if l.err.Some? then l else l.(configs := vs + l.configs)
  }

  lemma PrependTwice(a: seq<ConfigValue>, b: seq<ConfigValue>, l: Loaded)
    ensures Prepend(a, Prepend(b, l)) == Prepend(a + b, l)
  {
    if l.err.None? {
      assert a + (b + l.configs) == (a + b) + l.configs;
    }
  }

  /** An aggregate output normalisation deletes is a `.css` file. */
  lemma NormalizeKeepsSources(c: ConfigValue, wd: Path, fs: FsState)
    ensures SourcesKept(fs, NormalizeSpec(c, wd, fs).fs)
  {
    if c.output.Some? && IsAggregate(c.output.value) {
      var full := Combine(wd, c.output.value);
      CombineEndsWith(wd, c.output.value);
      EndsWithTransitive(full, c.output.value, CSS_EXT);
    }
  }

  /** A record that normalises without error: not `null`, and its `src` absent, a string or an
      array of strings. */
  predicate ValidEntry(e: Option<ConfigValue>) {
    e.Some? && NormalizeSrc(e.value.src, e.value.srcs).valid
  }

  /** The error the first invalid record stops loading with. */
  function EntryError(e: Option<ConfigValue>, configFile: Path): Error {
    if e.None? then NullConfigEntry(configFile) else SrcNotStrings(configFile)
  }

  /** Normalising the records of a configuration file in order; a `null` record or a bad `src`
      aborts, keeping what the earlier records did to the disk. */
  function NormalizeAll(fs: FsState, entries: seq<Option<ConfigValue>>, wd: Path, configFile: Path): (r: Loaded)
    ensures SourcesKept(fs, r.fs)
    ensures r.err.None? ==>
      && |r.configs| == |entries|
      && forall k :: 0 <= k < |entries| ==>
           entries[k].Some? && r.configs[k] == NormalizeSpec(entries[k].value, wd, FsState(map[], {})).config
    ensures r.err.Some? ==> r.err == Some(NullConfigEntry(configFile)) || r.err == Some(SrcNotStrings(configFile))
    decreases |entries|
  {
    if entries == [] then Loaded(fs, None, [])
    else match entries[0]
      case None => Loaded(fs, Some(NullConfigEntry(configFile)), [])
      case Some(v) =>
        var n := NormalizeSpec(v, wd, fs);
        NormalizeKeepsSources(v, wd, fs);
        if !n.valid then Loaded(n.fs, Some(SrcNotStrings(configFile)), [])
        else
          var rest := NormalizeAll(n.fs, entries[1..], wd, configFile);
          assert n.config == NormalizeSpec(v, wd, FsState(map[], {})).config;
          Prepend([n.config], rest)
  }

  /** One present record normalised, then the rest. */
  lemma NormalizeAllStep(fs: FsState, entries: seq<Option<ConfigValue>>, wd: Path, configFile: Path)
    requires entries != [] && entries[0].Some?
    ensures var n := NormalizeSpec(entries[0].value, wd, fs);
      NormalizeAll(fs, entries, wd, configFile) ==
        if !n.valid then Loaded(n.fs, Some(SrcNotStrings(configFile)), [])
        else Prepend([n.config], NormalizeAll(n.fs, entries[1..], wd, configFile))
  {
  }

  /** Loading succeeds exactly when every record is valid. */
  lemma {:induction false} LoadSucceedsWhenAllValid(fs: FsState, entries: seq<Option<ConfigValue>>, wd: Path,
                                                    configFile: Path)
    ensures NormalizeAll(fs, entries, wd, configFile).err.None? <==> forall k :: 0 <= k < |entries| ==> ValidEntry(entries[k])
    decreases |entries|
  {
    if entries != [] && entries[0].Some? {
      NormalizeAllStep(fs, entries, wd, configFile);
      var n := NormalizeSpec(entries[0].value, wd, fs);
      if n.valid {
        LoadSucceedsWhenAllValid(n.fs, entries[1..], wd, configFile);
        assert forall k :: 1 <= k < |entries| ==> entries[k] == entries[1..][k - 1];
      }
    }
  }

  /** A load that fails stops at the first invalid record, with the error that record gives. */
  lemma {:induction false} LoadStopsAtFirstInvalid(fs: FsState, entries: seq<Option<ConfigValue>>, wd: Path,
                                                   configFile: Path)
    requires NormalizeAll(fs, entries, wd, configFile).err.Some?
    ensures exists k ::
      && 0 <= k < |entries| && !ValidEntry(entries[k])
      && (forall j :: 0 <= j < k ==> ValidEntry(entries[j]))
      && NormalizeAll(fs, entries, wd, configFile).err == Some(EntryError(entries[k], configFile))
    decreases |entries|
  {
    if !ValidEntry(entries[0]) {
      if entries[0].Some? {
        NormalizeAllStep(fs, entries, wd, configFile);
      }
      assert !ValidEntry(entries[0]) && NormalizeAll(fs, entries, wd, configFile).err == Some(EntryError(entries[0], configFile));
    } else {
      NormalizeAllStep(fs, entries, wd, configFile);
      var n := NormalizeSpec(entries[0].value, wd, fs);
      LoadStopsAtFirstInvalid(n.fs, entries[1..], wd, configFile);
      var k :| 0 <= k < |entries[1..]| && !ValidEntry(entries[1..][k])
        && (forall j :: 0 <= j < k ==> ValidEntry(entries[1..][j]))
        && NormalizeAll(n.fs, entries[1..], wd, configFile).err == Some(EntryError(entries[1..][k], configFile));
      assert forall j :: 0 <= j < k + 1 ==> ValidEntry(entries[j]) by {
        forall j | 0 < j < k + 1 ensures ValidEntry(entries[j]) {
          assert entries[j] == entries[1..][j - 1];
        }
      }
      assert !ValidEntry(entries[k + 1]);
    }
  }

  /** Reading and deserialising a configuration file, then normalising its records, with the
      file's directory as their working directory. */
  function LoadSpec(fs: FsState, configFile: Path, parse: string -> ConfigDocument): (r: Loaded)
    requires configFile in fs.files
    ensures SourcesKept(fs, r.fs)
    ensures parse(fs.files[configFile]).Malformed? ==> r == Loaded(fs, Some(ConfigParseFailed(configFile)), [])
    ensures parse(fs.files[configFile]).NullDocument? ==> r == Loaded(fs, Some(NullConfigList(configFile)), [])
    ensures parse(fs.files[configFile]).Entries? ==>
      var es := parse(fs.files[configFile]).entries;
      (r.err.None? <==> forall k :: 0 <= k < |es| ==> ValidEntry(es[k]))
    ensures parse(fs.files[configFile]).Entries? && r.err.None? ==>
      var es := parse(fs.files[configFile]).entries;
      && |r.configs| == |es|
      && forall k :: 0 <= k < |es| ==>
           es[k].Some? && r.configs[k] == NormalizeSpec(es[k].value, DirectoryName(configFile), fs).config
    ensures r.err.None? ==> forall k :: 0 <= k < |r.configs| ==>
      r.configs[k].workingDirectory == Some(DirectoryName(configFile))
  {
    match parse(fs.files[configFile])
    case Malformed => Loaded(fs, Some(ConfigParseFailed(configFile)), [])
    case NullDocument => Loaded(fs, Some(NullConfigList(configFile)), [])
    case Entries(es) =>
      var wd := DirectoryName(configFile);
      LoadSucceedsWhenAllValid(fs, es, wd, configFile);
      forall k | 0 <= k < |es| && es[k].Some?
        ensures NormalizeSpec(es[k].value, wd, FsState(map[], {})).config == NormalizeSpec(es[k].value, wd, fs).config
      {
        NormalizedRecordIgnoresDisk(es[k].value, wd, FsState(map[], {}), fs);
      }
      NormalizeAll(fs, es, wd, configFile)
  }

  /** The record normalisation gives does not depend on the disk. */
  lemma NormalizedRecordIgnoresDisk(c: ConfigValue, wd: Path, a: FsState, b: FsState)
    ensures NormalizeSpec(c, wd, a).config == NormalizeSpec(c, wd, b).config
  {
  }

  /** The aggregate file a normalised record appends to, if it has one. */
  function AggregateFileOf(c: ConfigValue): set<Path> {
    if c.output.Some? && IsAggregate(c.output.value) then {c.output.value} else {}
  }

  /** The aggregate files of normalised records. */
  function AggregateFiles(cs: seq<ConfigValue>): set<Path>
    decreases |cs|
  {
    if cs == [] then {} else AggregateFileOf(cs[0]) + AggregateFiles(cs[1..])
  }

  /** The directories made for the aggregate files of normalised records: each one's directory and
      its ancestors. */
  function AggregateDirectories(cs: seq<ConfigValue>): set<Path>
    decreases |cs|
  {
    if cs == [] then {} else AggregateDirectoryOf(cs[0]) + AggregateDirectories(cs[1..])
  }

  /** The directory of a normalised record's aggregate file and its ancestors, if it has one. */
  function AggregateDirectoryOf(c: ConfigValue): set<Path> {
    if c.output.Some? && IsAggregate(c.output.value) then Ancestors(DirectoryName(c.output.value)) else {}
  }

  /** A record whose `output` is a `.css` file is left holding the full path of that file. */
  lemma NormalizedDisk(v: ConfigValue, wd: Path, fs: FsState)
    requires NormalizeSpec(v, wd, fs).valid
    ensures var n := NormalizeSpec(v, wd, fs);
      && n.fs.files.Keys == fs.files.Keys - AggregateFileOf(n.config)
      && (forall q :: q in n.fs.files ==> n.fs.files[q] == fs.files[q])
      && n.fs.dirs == fs.dirs + AggregateDirectoryOf(n.config)
  {
    var n := NormalizeSpec(v, wd, fs);
    if v.output.Some? && IsAggregate(v.output.value) {
      var full := Combine(wd, v.output.value);
      NormalizedAggregate(v, wd, fs);
      assert n.fs == Remove(MakeDirectory(fs, DirectoryName(full)), full);
      assert AggregateFileOf(n.config) == {full};
    } else {
      assert n.fs == fs && n.config.output == v.output;
    }
  }

  /** Normalising records in order deletes each aggregate file and makes its directory, and
      changes nothing else on the disk. */
  lemma {:induction false} NormalizeAllDisk(fs: FsState, entries: seq<Option<ConfigValue>>, wd: Path, configFile: Path)
    requires NormalizeAll(fs, entries, wd, configFile).err.None?
    ensures var l := NormalizeAll(fs, entries, wd, configFile);
      && l.fs.files.Keys == fs.files.Keys - AggregateFiles(l.configs)
      && (forall q :: q in l.fs.files ==> l.fs.files[q] == fs.files[q])
      && l.fs.dirs == fs.dirs + AggregateDirectories(l.configs)
    decreases |entries|
  {
    if entries != [] {
      NormalizeAllStep(fs, entries, wd, configFile);
      var n := NormalizeSpec(entries[0].value, wd, fs);
      var rest := NormalizeAll(n.fs, entries[1..], wd, configFile);
      NormalizeAllDisk(n.fs, entries[1..], wd, configFile);
      NormalizedDisk(entries[0].value, wd, fs);
      var cs := [n.config] + rest.configs;
      assert NormalizeAll(fs, entries, wd, configFile) == Loaded(rest.fs, None, cs);
      assert cs[0] == n.config && cs[1..] == rest.configs;
      assert AggregateFiles(cs) == AggregateFileOf(n.config) + AggregateFiles(rest.configs);
      assert AggregateDirectories(cs) == AggregateDirectoryOf(n.config) + AggregateDirectories(rest.configs);
    }
  }

  /**
   * A configuration file that loads deletes the aggregate file of each of its records and makes
   * that file's directory, before any file is compiled; every other file is as it was.
   */
  lemma LoadPreparesAggregates(fs: FsState, configFile: Path, parse: string -> ConfigDocument)
    requires configFile in fs.files && LoadSpec(fs, configFile, parse).err.None?
    ensures var l := LoadSpec(fs, configFile, parse);
      && l.fs.files.Keys == fs.files.Keys - AggregateFiles(l.configs)
      && (forall q :: q in l.fs.files ==> l.fs.files[q] == fs.files[q])
      && l.fs.dirs == fs.dirs + AggregateDirectories(l.configs)
  {
    NormalizeAllDisk(fs, parse(fs.files[configFile]).entries, DirectoryName(configFile), configFile);
  }

  /** `ProcessDirectory` on the disk value. */
  function DirSpec(fs: FsState, dir: Path, recursive: bool, excludes: set<Path>, c: ConfigValue,
                   env: Env, depth: nat): (r: Outcome)
    ensures SourcesKept(fs, r.fs)
    ensures dir + [Sep] in excludes ==> r == Ok(fs)
    decreases depth, 3, 0
  {
    if dir + [Sep] in excludes then Ok(fs)
    else
      var configFile := Combine(dir, CONFIG_FILE_NAME);
      if configFile in fs.files then
        var l := LoadSpec(fs, configFile, env.parse);
        if l.err.Some? then Outcome(l.fs, l.err)
        else ConfigsSpec(l.fs, dir, recursive, excludes, l.configs, env, depth)
      else ConfigsSpec(fs, dir, recursive, excludes, [c], env, depth)
  }

  /** The records of a directory, applied in order until one fails. */
  function ConfigsSpec(fs: FsState, dir: Path, recursive: bool, excludes: set<Path>, cs: seq<ConfigValue>,
                       env: Env, depth: nat): (r: Outcome)
    ensures SourcesKept(fs, r.fs)
    decreases depth, 2, |cs|
  {
    if cs == [] then Ok(fs)
    else
      var o := ConfigSpec(fs, dir, recursive, excludes, cs[0], env, depth);
      if o.err.Some? then o else ConfigsSpec(o.fs, dir, recursive, excludes, cs[1..], env, depth)
  }

  /**
   * One record applied to a directory: without glob patterns, its `.less`, `.sass` and `.scss`
   * files in that order and then, when recursive, every subdirectory present by then; with
   * patterns, the files they select, in ordinal order.
   */
  function ConfigSpec(fs: FsState, dir: Path, recursive: bool, excludes: set<Path>, c: ConfigValue,
                      env: Env, depth: nat): (r: Outcome)
    ensures SourcesKept(fs, r.fs)
    decreases depth, 1, 0
  {
    if c.srcs.None? then
      var o := GroupsSpec(fs, dir, SCAN_ORDER, excludes, c, env.compile);
      if o.err.Some? || !recursive then o
      else SubdirsSpec(o.fs, DirectoriesIn(o.fs, dir), recursive, excludes, c, env, depth)
    else
      FilesSpec(fs, SortedSeq(env.glob(c.srcs.value, dir, fs.files.Keys)), excludes, c, env.compile)
  }

  /** The files of each extension in turn, each group listed when its turn comes. */
  function GroupsSpec(fs: FsState, dir: Path, exts: seq<string>, excludes: set<Path>, c: ConfigValue,
                      compile: Compiler): (r: Outcome)
    ensures SourcesKept(fs, r.fs)
    decreases |exts|
  {
    if exts == [] then Ok(fs)
    else
      var o := FilesSpec(fs, FilesIn(fs, dir, exts[0]), excludes, c, compile);
      if o.err.Some? then o
      else
        var r := GroupsSpec(o.fs, dir, exts[1..], excludes, c, compile);
        SourcesKeptTransitive(fs, o.fs, r.fs);
        r
  }

  /** The subdirectories in turn, each one a level deeper. */
  function SubdirsSpec(fs: FsState, subs: seq<Path>, recursive: bool, excludes: set<Path>, c: ConfigValue,
                       env: Env, depth: nat): (r: Outcome)
    ensures SourcesKept(fs, r.fs)
    decreases depth, 0, |subs|
  {
    if subs == [] then Ok(fs)
    else if depth == 0 then Outcome(fs, Some(DepthExceeded(subs[0])))
    else
      var o := DirSpec(fs, subs[0], recursive, excludes, c, env, depth - 1);
      if o.err.Some? then o else SubdirsSpec(o.fs, subs[1..], recursive, excludes, c, env, depth)
  }

  /** The exclusions a source directory is walked with: the options' own, or git's. */
  function ExcludesFor(options: Options, src: Path, env: Env): (r: set<Path>)
    ensures options.excludes.Some? ==> forall p :: p in r <==> p in options.excludes.value
    ensures options.excludes.None? ==> r == GitExcludes(src, env.git(src))
  {
    match options.excludes
    case Some(list) => set p | p in list
    case None => GitExcludes(src, env.git(src))
  }

  /** Where a run of `Process` stands after some sources: the disk and the error that stopped
      it, and the shared default record as those sources left it. */
  datatype Progress = Progress(outcome: Outcome, config: ConfigValue)

  /**
   * One source of `Process`: an existing file is compiled with the default record; a directory
   * becomes the default record's working directory and is walked with that record and the
   * exclusions for it; anything else is not found and stops the run.
   */
  function SourceSpec(fs: FsState, src: Path, options: Options, c: ConfigValue, env: Env, depth: nat): (r: Progress)
    ensures SourcesKept(fs, r.outcome.fs)
    ensures src in fs.files ==> r == Progress(FileSpec(fs, src, c, env.compile), c)
    ensures src !in fs.files && src in fs.dirs ==>
      && r.config == c.(workingDirectory := Some(src))
      && r.outcome == DirSpec(fs, src, options.recursive, ExcludesFor(options, src, env), r.config, env, depth)
    ensures src !in fs.files && src !in fs.dirs ==> r == Progress(Outcome(fs, Some(NotFound(src))), c)
  {
    if src in fs.files then Progress(FileSpec(fs, src, c, env.compile), c)
    else if src in fs.dirs then
      var c' := c.(workingDirectory := Some(src));
      Progress(DirSpec(fs, src, options.recursive, ExcludesFor(options, src, env), c', env, depth), c')
    else Progress(Outcome(fs, Some(NotFound(src))), c)
  }

  /**
   * `Process` on the disk value: the sources in order until one fails. The default record is
   * shared by all sources: a source directory becomes its working directory, and stays so for
   * the sources after it; nothing else in it changes.
   */
  function ProcessSpec(fs: FsState, srcs: seq<Path>, options: Options, c: ConfigValue, env: Env, depth: nat): (r: Progress)
    ensures SourcesKept(fs, r.outcome.fs)
    ensures r.config == c.(workingDirectory := r.config.workingDirectory)
    ensures srcs != [] && srcs[0] !in fs.files && srcs[0] !in fs.dirs ==>
      r.outcome == Outcome(fs, Some(NotFound(srcs[0])))
    decreases |srcs|
  {
    if srcs == [] then Progress(Ok(fs), c)
    else
      var p := SourceSpec(fs, srcs[0], options, c, env, depth);
      if p.outcome.err.Some? then p
      else
        var r := ProcessSpec(p.outcome.fs, srcs[1..], options, p.config, env, depth);
        SourcesKeptTransitive(fs, p.outcome.fs, r.outcome.fs);
        r
  }

  /** Processing two lists of sources one after the other is processing their concatenation: an
      error in the first stops the run, and otherwise the second starts from the disk and the
      record the first left. */
  lemma {:induction false} ProcessSpecConcat(fs: FsState, a: seq<Path>, b: seq<Path>, options: Options,
                                             c: ConfigValue, env: Env, depth: nat)
    ensures ProcessSpec(fs, a + b, options, c, env, depth) ==
      var p := ProcessSpec(fs, a, options, c, env, depth);
      if p.outcome.err.Some? then p else ProcessSpec(p.outcome.fs, b, options, p.config, env, depth)
    decreases |a|
  {
    if a == [] {
      assert a + b == b;
    } else {
      assert (a + b)[0] == a[0] && (a + b)[1..] == a[1..] + b;
      var p := SourceSpec(fs, a[0], options, c, env, depth);
      if p.outcome.err.None? {
        ProcessSpecConcat(p.outcome.fs, a[1..], b, options, p.config, env, depth);
      }
    }
  }

  /** A source that is neither a file nor a directory when its turn comes stops the run with
      `NotFound`, leaving the disk as the sources before it left it. */
  lemma MissingSourceStops(fs: FsState, a: seq<Path>, src: Path, b: seq<Path>, options: Options,
                           c: ConfigValue, env: Env, depth: nat)
    requires var p := ProcessSpec(fs, a, options, c, env, depth);
      p.outcome.err.None? && src !in p.outcome.fs.files && src !in p.outcome.fs.dirs
    ensures var p := ProcessSpec(fs, a, options, c, env, depth);
      ProcessSpec(fs, a + [src] + b, options, c, env, depth).outcome == Outcome(p.outcome.fs, Some(NotFound(src)))
  {
    assert a + [src] + b == a + ([src] + b);
    ProcessSpecConcat(fs, a, [src] + b, options, c, env, depth);
  }

  /** Deserialising a configuration file and normalising each record it holds. */
  method LoadConfigs(configFile: Path, fs: FileSystem, parse: string -> ConfigDocument)
    returns (configs: seq<ConfigValue>, err: Option<Error>)
    requires fs.FileExists(configFile)
    modifies fs
    ensures Loaded(fs.State(), err, configs) == LoadSpec(old(fs.State()), configFile, parse)
  {
    var workingDirectory := DirectoryName(configFile);
    var doc := parse(fs.files[configFile]);
    if doc.Malformed? {
      return [], Some(ConfigParseFailed(configFile));
    }
    if doc.NullDocument? {
      return [], Some(NullConfigList(configFile));
    }
    configs, err := NormalizeConfigs(doc.entries, workingDirectory, configFile, fs);
  }

  /** The loop normalising the deserialised records, one after the other; each record's value
      once normalised is collected, as nothing changes it afterwards. */
  method NormalizeConfigs(es: seq<Option<ConfigValue>>, workingDirectory: Path, configFile: Path, fs: FileSystem)
    returns (configs: seq<ConfigValue>, err: Option<Error>)
    modifies fs
    ensures Loaded(fs.State(), err, configs) == NormalizeAll(old(fs.State()), es, workingDirectory, configFile)
  {
    configs := [];
    for i := 0 to |es|
      invariant Prepend(configs, NormalizeAll(fs.State(), es[i..], workingDirectory, configFile))
             == NormalizeAll(old(fs.State()), es, workingDirectory, configFile)
    {
      assert es[i..][1..] == es[i + 1..];
      if es[i].None? {
        return [], Some(NullConfigEntry(configFile));
      }
      NormalizeAllStep(fs.State(), es[i..], workingDirectory, configFile);
      var c := new Config(es[i].value);
      var valid := NormalizeConfig(c, workingDirectory, fs);
      if !valid {
        return [], Some(SrcNotStrings(configFile));
      }
      PrependTwice(configs, [c.Value()], NormalizeAll(fs.State(), es[i + 1..], workingDirectory, configFile));
      configs := configs + [c.Value()];
    }
    err := None;
  }

  /** `ProcessDirectory`. */
  method ProcessDirectory(directory: Path, recursive: bool, excludes: set<Path>, config: ConfigValue,
                          fs: FileSystem, env: Env, depth: nat)
    returns (err: Option<Error>)
    modifies fs
    ensures Outcome(fs.State(), err) == DirSpec(old(fs.State()), directory, recursive, excludes, config, env, depth)
    decreases depth, 3
  {
    if directory + [Sep] in excludes {
      return None;
    }
    var configFile := Combine(directory, CONFIG_FILE_NAME);
    var configs: seq<ConfigValue>;
    if fs.FileExists(configFile) {
      configs, err := LoadConfigs(configFile, fs, env.parse);
      if err.Some? {
        return;
      }
    } else {
      configs := [config];
    }
    err := ApplyConfigs(directory, recursive, excludes, configs, fs, env, depth);
  }

  /** One record applied, then the rest. */
  lemma ConfigsStep(fs: FsState, dir: Path, recursive: bool, excludes: set<Path>, cs: seq<ConfigValue>,
                    env: Env, depth: nat)
    requires cs != []
    ensures ConfigsSpec(fs, dir, recursive, excludes, cs, env, depth) ==
      var o := ConfigSpec(fs, dir, recursive, excludes, cs[0], env, depth);
      if o.err.Some? then o else ConfigsSpec(o.fs, dir, recursive, excludes, cs[1..], env, depth)
  {
  }

  /** The loop over the records in `ProcessDirectory`. */
  method ApplyConfigs(directory: Path, recursive: bool, excludes: set<Path>, configs: seq<ConfigValue>,
                      fs: FileSystem, env: Env, depth: nat)
    returns (err: Option<Error>)
    modifies fs
    ensures Outcome(fs.State(), err) == ConfigsSpec(old(fs.State()), directory, recursive, excludes, configs, env, depth)
    decreases depth, 2
  {
    for i := 0 to |configs|
      invariant ConfigsSpec(fs.State(), directory, recursive, excludes, configs[i..], env, depth)
             == ConfigsSpec(old(fs.State()), directory, recursive, excludes, configs, env, depth)
    {
      assert configs[i..][1..] == configs[i + 1..];
      ConfigsStep(fs.State(), directory, recursive, excludes, configs[i..], env, depth);
      err := ApplyConfig(directory, recursive, excludes, configs[i], fs, env, depth);
      if err.Some? {
        return;
      }
    }
    err := None;
  }

  /** The body of the loop over the records in `ProcessDirectory`. */
  method ApplyConfig(directory: Path, recursive: bool, excludes: set<Path>, c: ConfigValue,
                     fs: FileSystem, env: Env, depth: nat)
    returns (err: Option<Error>)
    modifies fs
    ensures Outcome(fs.State(), err) == ConfigSpec(old(fs.State()), directory, recursive, excludes, c, env, depth)
    decreases depth, 1
  {
    if c.srcs.None? {
      err := ScanDirectory(directory, excludes, c, fs, env.compile);
      if err.None? && recursive {
        var subs := fs.GetDirectories(directory);
        err := ProcessSubdirectories(subs, recursive, excludes, c, fs, env, depth);
      }
    } else {
      var files := SortedSeq(env.glob(c.srcs.value, directory, fs.files.Keys));
      err := ProcessFiles(files, excludes, c, fs, env.compile);
    }
  }

  /** The `.less`, `.sass` and `.scss` files of a directory, one extension after the other. */
  method ScanDirectory(directory: Path, excludes: set<Path>, c: ConfigValue, fs: FileSystem, compile: Compiler)
    returns (err: Option<Error>)
    modifies fs
    ensures Outcome(fs.State(), err) == GroupsSpec(old(fs.State()), directory, SCAN_ORDER, excludes, c, compile)
  {
    for e := 0 to |SCAN_ORDER|
      invariant GroupsSpec(fs.State(), directory, SCAN_ORDER[e..], excludes, c, compile)
             == GroupsSpec(old(fs.State()), directory, SCAN_ORDER, excludes, c, compile)
    {
      assert SCAN_ORDER[e..][1..] == SCAN_ORDER[e + 1..];
      var files := fs.GetFiles(directory, SCAN_ORDER[e]);
      err := ProcessFiles(files, excludes, c, fs, compile);
      if err.Some? {
        return;
      }
    }
    err := None;
  }

  /** The recursive step of `ProcessDirectory`: each subdirectory with the same record. */
  method ProcessSubdirectories(subs: seq<Path>, recursive: bool, excludes: set<Path>, c: ConfigValue,
                               fs: FileSystem, env: Env, depth: nat)
    returns (err: Option<Error>)
    modifies fs
    ensures Outcome(fs.State(), err) == SubdirsSpec(old(fs.State()), subs, recursive, excludes, c, env, depth)
    decreases depth, 0
  {
    for k := 0 to |subs|
      invariant SubdirsSpec(fs.State(), subs[k..], recursive, excludes, c, env, depth)
             == SubdirsSpec(old(fs.State()), subs, recursive, excludes, c, env, depth)
    {
      assert subs[k..][1..] == subs[k + 1..];
      if depth == 0 {
        return Some(DepthExceeded(subs[k]));
      }
      err := ProcessDirectory(subs[k], recursive, excludes, c, fs, env, depth - 1);
      if err.Some? {
        return;
      }
    }
    err := None;
  }

  /** `Process`. */
  method Process(options: Options, fs: FileSystem, env: Env, depth: nat) returns (err: Option<Error>)
    modifies fs
    ensures Outcome(fs.State(), err) == ProcessSpec(old(fs.State()), options.srcs, options, EMPTY_CONFIG, env, depth).outcome
  {
    var defaultConfig := new Config(EMPTY_CONFIG);
    for i := 0 to |options.srcs|
      invariant ProcessSpec(fs.State(), options.srcs[i..], options, defaultConfig.Value(), env, depth)
             == ProcessSpec(old(fs.State()), options.srcs, options, EMPTY_CONFIG, env, depth)
    {
      assert options.srcs[i..][1..] == options.srcs[i + 1..];
      var src := options.srcs[i];
      if fs.FileExists(src) {
        err := ProcessFile(src, defaultConfig.Value(), fs, env.compile);
      } else if fs.DirectoryExists(src) {
        defaultConfig.workingDirectory := Some(src);
        var excludes := ExcludesFor(options, src, env);
        err := ProcessDirectory(src, options.recursive, excludes, defaultConfig.Value(), fs, env, depth);
      } else {
        err := Some(NotFound(src));
      }
      if err.Some? {
        return;
      }
    }
    err := None;
  }

  /**
   * `Main`: exit code 1 when an argument is rejected or processing fails, and 0 otherwise; with
   * no source argument nothing is processed.
   */
  method Run(args: seq<string>, cwd: Path, fs: FileSystem, env: Env, depth: nat) returns (code: int)
    modifies fs
    ensures (exists i :: 0 <= i < |args| && !Accepted(args[i])) ==> code == 1 && fs.State() == old(fs.State())
    ensures (forall i :: 0 <= i < |args| ==> Accepted(args[i])) && SourceArgs(cwd, args) == [] ==>
      code == 0 && fs.State() == old(fs.State())
    ensures (forall i :: 0 <= i < |args| ==> Accepted(args[i])) && SourceArgs(cwd, args) != [] ==>
      var options := Options((exists i :: 0 <= i < |args| && IsRecursiveFlag(args[i])), SourceArgs(cwd, args), None);
      var o := ProcessSpec(old(fs.State()), options.srcs, options, EMPTY_CONFIG, env, depth).outcome;
      fs.State() == o.fs && (code == 0 <==> o.err.None?) && (code == 0 || code == 1)
  {
    var parsed := ParseOptions(args, cwd);
    if parsed.Failure? {
      return 1;
    }
    var options := parsed.value;
    if |options.srcs| == 0 {
      return 0;
    }
    var err := Process(options, fs, env, depth);
    code := if err.None? then 0 else 1;
  }

  /**
   * A directory git lists as ignored, at any depth below the source directory it ran in, is
   * skipped whole: nothing is read, compiled or written under it.
   */
  lemma IgnoredDirectoryIsSkipped(fs: FsState, root: Path, name: string, before: string, after: string,
                                  recursive: bool, c: ConfigValue, env: Env, depth: nat)
    requires root != "" && root[|root| - 1] != Sep
    requires name != "" && name[0] != Sep && '\n' !in name
    requires AtLineStart(before) && AtLineEnd(after)
    requires env.git(root) == Some(before + name + "/" + after)
    ensures DirSpec(fs, Combine(root, name), recursive, GitExcludes(root, env.git(root)), c, env, depth) == Ok(fs)
  {
    IgnoredDirectoryIsExcluded(root, before, name, after);
  }

  /** Without a configuration file, a directory is processed with exactly the inherited record. */
  lemma InheritedConfig(fs: FsState, dir: Path, recursive: bool, excludes: set<Path>, c: ConfigValue,
                        env: Env, depth: nat)
    requires dir + [Sep] !in excludes && Combine(dir, CONFIG_FILE_NAME) !in fs.files
    ensures DirSpec(fs, dir, recursive, excludes, c, env, depth) == ConfigSpec(fs, dir, recursive, excludes, c, env, depth)
  {
    var o := ConfigSpec(fs, dir, recursive, excludes, c, env, depth);
    if o.err.None? {
      assert ConfigsSpec(o.fs, dir, recursive, excludes, [c][1..], env, depth) == o;
    }
  }

  /**
   * A configuration file that is not valid JSON, is `null`, or holds a `null` record or one whose
   * `src` is neither a string nor an array of strings, stops the run with its error before any file
   * of the directory is compiled; one that is not valid JSON, or is `null`, leaves the disk as it was.
   */
  lemma ConfigErrorAborts(fs: FsState, dir: Path, recursive: bool, excludes: set<Path>, c: ConfigValue,
                          env: Env, depth: nat)
    requires dir + [Sep] !in excludes
    requires var configFile := Combine(dir, CONFIG_FILE_NAME);
      && configFile in fs.files
      && var doc := env.parse(fs.files[configFile]);
         !doc.Entries? || exists k :: 0 <= k < |doc.entries| && !ValidEntry(doc.entries[k])
    ensures var configFile := Combine(dir, CONFIG_FILE_NAME);
      var l := LoadSpec(fs, configFile, env.parse);
      var r := DirSpec(fs, dir, recursive, excludes, c, env, depth);
      && r == Outcome(l.fs, l.err) && r.err.Some?
      && (!env.parse(fs.files[configFile]).Entries? ==> r.fs == fs)
  {
  }

  /**
   * A configuration file that loads replaces the inherited record: the directory is processed
   * with the file's records, in file order, whatever record it inherited.
   */
  lemma LoadedConfigsReplaceInherited(fs: FsState, dir: Path, recursive: bool, excludes: set<Path>,
                                      c: ConfigValue, env: Env, depth: nat)
    requires dir + [Sep] !in excludes
    requires var configFile := Combine(dir, CONFIG_FILE_NAME);
      configFile in fs.files && LoadSpec(fs, configFile, env.parse).err.None?
    ensures var l := LoadSpec(fs, Combine(dir, CONFIG_FILE_NAME), env.parse);
      DirSpec(fs, dir, recursive, excludes, c, env, depth) == ConfigsSpec(l.fs, dir, recursive, excludes, l.configs, env, depth)
  {
  }

  /** The configuration file name is a plain name, without separators. */
  lemma ConfigFileNameIsPlain()
    ensures CONFIG_FILE_NAME != "" && Sep !in CONFIG_FILE_NAME
  {
    assert forall i :: 0 <= i < |CONFIG_FILE_NAME| ==> CONFIG_FILE_NAME[i] != Sep;
  }

  /**
   * The records of a configuration file all work in the directory holding it (without the
   * separators at its end), so an `output` directory or file is resolved against that directory.
   */
  lemma RecordsWorkInTheirDirectory(fs: FsState, dir: Path, parse: string -> ConfigDocument)
    requires Combine(dir, CONFIG_FILE_NAME) in fs.files
    requires LoadSpec(fs, Combine(dir, CONFIG_FILE_NAME), parse).err.None?
    ensures var l := LoadSpec(fs, Combine(dir, CONFIG_FILE_NAME), parse);
      forall k :: 0 <= k < |l.configs| ==> l.configs[k].workingDirectory == Some(TrimEnd(dir))
  {
    ConfigFileNameIsPlain();
    CombinePlain(dir, CONFIG_FILE_NAME);
  }

  /** The files of one extension are the same before and after compiling, which writes only CSS. */
  lemma FilesInKept(a: FsState, b: FsState, dir: Path, ext: string)
    requires SourcesKept(a, b) && ext in SCAN_ORDER
    ensures FilesIn(a, dir, ext) == FilesIn(b, dir, ext)
  {
    forall p | EndsWith(p, ext) ensures !EndsWith(p, CSS_EXT) {
      assert DialectOf(p).Some?;
      StylesheetIsNotCss(p);
    }
    assert ChildFiles(a, dir, ext) == ChildFiles(b, dir, ext);
  }

  /** The files of each extension in turn, concatenated. */
  function FilesOfExtensions(fs: FsState, dir: Path, exts: seq<string>): seq<Path>
    decreases |exts|
  {
    if exts == [] then [] else FilesIn(fs, dir, exts[0]) + FilesOfExtensions(fs, dir, exts[1..])
  }

  lemma {:induction false} FilesOfExtensionsKept(a: FsState, b: FsState, dir: Path, exts: seq<string>)
    requires SourcesKept(a, b) && forall i :: 0 <= i < |exts| ==> exts[i] in SCAN_ORDER
    ensures FilesOfExtensions(a, dir, exts) == FilesOfExtensions(b, dir, exts)
    decreases |exts|
  {
    if exts != [] {
      FilesInKept(a, b, dir, exts[0]);
      FilesOfExtensionsKept(a, b, dir, exts[1..]);
    }
  }

  /**
   * Scanning extension by extension is processing one selection: the files of every extension,
   * each group listed as it stood before any was compiled.
   */
  lemma {:induction false} GroupsAreOneSelection(fs: FsState, dir: Path, exts: seq<string>, excludes: set<Path>,
                                                 c: ConfigValue, compile: Compiler)
    requires forall i :: 0 <= i < |exts| ==> exts[i] in SCAN_ORDER
    ensures GroupsSpec(fs, dir, exts, excludes, c, compile)
         == FilesSpec(fs, FilesOfExtensions(fs, dir, exts), excludes, c, compile)
    decreases |exts|
  {
    if exts != [] {
      var first := FilesIn(fs, dir, exts[0]);
      FilesSpecConcat(fs, first, FilesOfExtensions(fs, dir, exts[1..]), excludes, c, compile);
      var o := FilesSpec(fs, first, excludes, c, compile);
      if o.err.None? {
        GroupsAreOneSelection(o.fs, dir, exts[1..], excludes, c, compile);
        FilesOfExtensionsKept(fs, o.fs, dir, exts[1..]);
      }
    }
  }

  /**
   * Without glob patterns, a record compiles the directory's `.less` files, then its `.sass` files,
   * then its `.scss` files, each group in ordinal order and as present at the start, and only then,
   * when recursive, visits the subdirectories.
   */
  lemma ScanOrder(fs: FsState, dir: Path, recursive: bool, excludes: set<Path>, c: ConfigValue, env: Env, depth: nat)
    requires c.srcs.None?
    ensures ConfigSpec(fs, dir, recursive, excludes, c, env, depth) ==
      var files := FilesIn(fs, dir, LESS_EXT) + FilesIn(fs, dir, SASS_EXT) + FilesIn(fs, dir, SCSS_EXT);
      var o := FilesSpec(fs, files, excludes, c, env.compile);
      if o.err.Some? || !recursive then o
      else SubdirsSpec(o.fs, DirectoriesIn(o.fs, dir), recursive, excludes, c, env, depth)
  {
    GroupsAreOneSelection(fs, dir, SCAN_ORDER, excludes, c, env.compile);
    ScannedFiles(fs, dir, LESS_EXT, SASS_EXT, SCSS_EXT);
  }

  lemma ScannedFiles(fs: FsState, dir: Path, x: string, y: string, z: string)
    ensures FilesOfExtensions(fs, dir, [x, y, z]) == FilesIn(fs, dir, x) + FilesIn(fs, dir, y) + FilesIn(fs, dir, z)
  {
    var a, b, c := FilesIn(fs, dir, x), FilesIn(fs, dir, y), FilesIn(fs, dir, z);
    calc {
      FilesOfExtensions(fs, dir, [x, y, z]);
    == { FilesOfExtensionsStep(fs, dir, [x, y, z]); assert [x, y, z][1..] == [y, z]; }
      a + FilesOfExtensions(fs, dir, [y, z]);
    == { FilesOfExtensionsStep(fs, dir, [y, z]); assert [y, z][1..] == [z]; }
      a + (b + FilesOfExtensions(fs, dir, [z]));
    == { FilesOfExtensionsStep(fs, dir, [z]); assert [z][1..] == []; }
      a + (b + (c + []));
    == { ConcatThree(a, b, c); }
      a + b + c;
    }
  }

  lemma ConcatThree<T>(a: seq<T>, b: seq<T>, c: seq<T>)
    ensures a + (b + (c + [])) == a + b + c
  {
    assert c + [] == c;
  }

  lemma FilesOfExtensionsStep(fs: FsState, dir: Path, exts: seq<string>)
    requires exts != []
    ensures FilesOfExtensions(fs, dir, exts) == FilesIn(fs, dir, exts[0]) + FilesOfExtensions(fs, dir, exts[1..])
  {
  }

  /**
   * A record with glob patterns and an aggregate `output`: once normalised, a run without failure
   * leaves the aggregate file holding exactly the CSS of the selected files, in ordinal order,
   * whatever it held before, and writes no other file.
   */
  lemma AggregateOutput(fs: FsState, v: ConfigValue, dir: Path, recursive: bool, excludes: set<Path>,
                        env: Env, depth: nat)
    requires v.output.Some? && IsAggregate(v.output.value)
    requires var n := NormalizeSpec(v, dir, fs); n.valid && n.config.srcs.Some?
    requires var n := NormalizeSpec(v, dir, fs);
      ConfigSpec(n.fs, dir, recursive, excludes, n.config, env, depth).err.None?
    ensures var n := NormalizeSpec(v, dir, fs);
      var files := SortedSeq(env.glob(n.config.srcs.value, dir, n.fs.files.Keys));
      var full := Combine(dir, v.output.value);
      var r := ConfigSpec(n.fs, dir, recursive, excludes, n.config, env, depth).fs;
      && TextOf(r, full) == Concatenated(fs, files, excludes, env.compile)
      && OnlyWrites(n.fs, r, full)
  {
    var n := NormalizeSpec(v, dir, fs);
    var files := SortedSeq(env.glob(n.config.srcs.value, dir, n.fs.files.Keys));
    NormalizedAggregate(v, dir, fs);
    assert ConfigSpec(n.fs, dir, recursive, excludes, n.config, env, depth)
        == FilesSpec(n.fs, files, excludes, n.config, env.compile);
    AggregateCollects(n.fs, files, excludes, n.config, env.compile);
    ConcatenatedReadsSources(fs, n.fs, files, excludes, env.compile);
  }

  /** Normalising a record with an aggregate `output` resolves it to a `.css` file that is then absent. */
  lemma NormalizedAggregate(v: ConfigValue, dir: Path, fs: FsState)
    requires v.output.Some? && IsAggregate(v.output.value) && NormalizeSpec(v, dir, fs).valid
    ensures var n := NormalizeSpec(v, dir, fs);
      var full := Combine(dir, v.output.value);
      && n.config.output == Some(full) && IsAggregate(full) && TextOf(n.fs, full) == ""
      && SourcesKept(fs, n.fs)
  {
    NormalizeKeepsSources(v, dir, fs);
    CombineEndsWith(dir, v.output.value);
    EndsWithTransitive(Combine(dir, v.output.value), v.output.value, CSS_EXT);
  }
}
