/**
 * The configuration record `CssBuilderConfigJson` and `NormalizeConfig`, which turns a record read
 * from `cssbuilder.config.json` into the form the walk uses: `_workdingDirectory` set, `src`
 * turned into the pattern list `_srcs`, and an aggregate `output` resolved and truncated.
 */
module Configs {
  import opened Wrappers
  import opened Paths
  import opened Fs

  /** The deserialised value of the untyped `src` property. */
  datatype JsonValue = Absent | Str(s: string) | Arr(elements: seq<JsonValue>) | Other

  /**
   * The four public properties of a configuration record. Every one of them can be set from the
   * JSON text; `output`, `_workdingDirectory` and `_srcs` are null (`None`) unless it does.
   */
  datatype ConfigValue = ConfigValue(
    src: JsonValue,
    output: Option<string>,
    workingDirectory: Option<Path>,
    srcs: Option<seq<string>>)

  /** `new CssBuilderConfigJson()`. */
  const EMPTY_CONFIG: ConfigValue := ConfigValue(Absent, None, None, None)

  /** An output that names one aggregate file rather than a directory. */
  predicate IsAggregate(output: string) {
    EndsWith(output, CSS_EXT)
  }

  predicate AllStrings(es: seq<JsonValue>) {
    forall i :: 0 <= i < |es| ==> es[i].Str?
  }

  /** The strings at the front of `es`, up to its first element that is not a string. */
  function LeadingStrings(es: seq<JsonValue>): (r: seq<string>)
    ensures |r| <= |es|
    ensures forall i :: 0 <= i < |r| ==> es[i] == Str(r[i])
    ensures |r| < |es| ==> !es[|r|].Str?
  {
    if es == [] || !es[0].Str? then [] else [es[0].s] + LeadingStrings(es[1..])
  }

  /** What normalisation leaves in `_srcs`, and whether it ends without a format error. */
  datatype SrcResult = SrcResult(srcs: Option<seq<string>>, valid: bool)

  function NormalizeSrc(src: JsonValue, prior: Option<seq<string>>): (r: SrcResult)
    ensures r.valid <==> !src.Other? && (src.Arr? ==> AllStrings(src.elements))
    ensures src.Absent? ==> r.srcs == prior
    ensures src.Str? ==> r.srcs == Some([src.s])
    ensures src.Arr? && r.valid ==>
      r.srcs.Some? && |r.srcs.value| == |src.elements| &&
      forall i :: 0 <= i < |src.elements| ==> src.elements[i] == Str(r.srcs.value[i])
  {
    match src
    case Absent => SrcResult(prior, true)
    case Str(s) => SrcResult(Some([s]), true)
    case Arr(es) => SrcResult(Some(LeadingStrings(es)), AllStrings(es))
    case Other => SrcResult(Some([]), false)
  }

  /** The record and the filesystem after normalisation, and whether it ended without an error. */
  datatype Normalized = Normalized(config: ConfigValue, fs: FsState, valid: bool)

  function NormalizeSpec(c: ConfigValue, wd: Path, fs: FsState): (r: Normalized)
    ensures r.config.workingDirectory == Some(wd) && r.config.src == c.src
    ensures r.config.srcs == NormalizeSrc(c.src, c.srcs).srcs
    ensures r.valid == NormalizeSrc(c.src, c.srcs).valid
    ensures !r.valid ==> r.config.output == c.output && r.fs == fs
    ensures r.valid && c.output.Some? && IsAggregate(c.output.value) ==>
      var full := Combine(wd, c.output.value);
      && r.config.output == Some(full)
      && full !in r.fs.files
      && r.fs.files.Keys == fs.files.Keys - {full}
      && (forall q :: q in r.fs.files ==> r.fs.files[q] == fs.files[q])
      && MadeDirectory(fs.dirs, r.fs.dirs, DirectoryName(full))
    ensures r.valid && (c.output.None? || !IsAggregate(c.output.value)) ==>
      r.config.output == c.output && r.fs == fs
  {
    var s := NormalizeSrc(c.src, c.srcs);
    var named := c.(workingDirectory := Some(wd), srcs := s.srcs);
    if !s.valid then Normalized(named, fs, false)
    else if c.output.Some? && IsAggregate(c.output.value) then
      var full := Combine(wd, c.output.value);
      Normalized(named.(output := Some(full)), Remove(MakeDirectory(fs, DirectoryName(full)), full), true)
    else Normalized(named, fs, true)
  }

  /** A configuration record, as the mutable object the program passes around. */
  class Config {
    var src: JsonValue
    var output: Option<string>
    var workingDirectory: Option<Path>
    var srcs: Option<seq<string>>

    function Value(): ConfigValue
      reads this
    {
      ConfigValue(src, output, workingDirectory, srcs)
    }

    constructor (v: ConfigValue)
      ensures Value() == v
    {
      src := v.src;
      output := v.output;
      workingDirectory := v.workingDirectory;
      srcs := v.srcs;
    }
  }

  /** `NormalizeConfig`: returns false where the program throws the `src` format error. */
  method NormalizeConfig(c: Config, wd: Path, fs: FileSystem) returns (valid: bool)
    modifies c, fs
    ensures Normalized(c.Value(), fs.State(), valid) == NormalizeSpec(old(c.Value()), wd, old(fs.State()))
  {
    c.workingDirectory := Some(wd);
    if !c.src.Absent? {
      c.srcs := Some([]);
      match c.src {
        case Str(s) =>
          c.srcs := Some(c.srcs.value + [s]);
          assert c.srcs.value == [s];
        case Arr(es) =>
          var i := 0;
          while i < |es|
            invariant 0 <= i <= |es| && AllStrings(es[..i])
            invariant i <= |LeadingStrings(es)| && c.srcs == Some(LeadingStrings(es)[..i])
            invariant c.src == old(c.src) && c.output == old(c.output)
            invariant c.workingDirectory == Some(wd)
            invariant fs.State() == old(fs.State())
          {
            if !es[i].Str? {
              assert LeadingStrings(es)[..i] == LeadingStrings(es);
              return false;
            }
            assert LeadingStrings(es)[..i + 1] == LeadingStrings(es)[..i] + [es[i].s];
            c.srcs := Some(c.srcs.value + [es[i].s]);
            i := i + 1;
          }
          assert es[..i] == es;
          assert LeadingStrings(es)[..i] == LeadingStrings(es);
        case Other =>
          return false;
        case Absent =>
      }
    }
    if c.output.Some? && IsAggregate(c.output.value) {
      var full := Combine(c.workingDirectory.value, c.output.value);
      fs.CreateDirectory(DirectoryName(full));
      fs.Delete(full);
      c.output := Some(full);
    }
    valid := true;

  }
}
