/**
 * The filesystem the build tool reads and writes: files with their text, and directories. The
 * value `FsState` is what the specification functions talk about; the class `FileSystem` is the
 * mutable disk the methods change, one `System.IO` call at a time.
 */
module Fs {
  import opened Wrappers
  import opened Paths
  import opened Ordering

  datatype FsState = FsState(files: map<Path, string>, dirs: set<Path>)

  /** The state a run stands in, and the error that aborted it, if one did. */
  datatype Outcome = Outcome(fs: FsState, err: Option<Error>)

  function Ok(fs: FsState): Outcome {
    Outcome(fs, None)
  }

  /** `File.WriteAllText`: create or replace. */
  function Write(fs: FsState, p: Path, text: string): (r: FsState)
    ensures r.dirs == fs.dirs && r.files.Keys == fs.files.Keys + {p} && r.files[p] == text
    ensures forall q :: q in fs.files && q != p ==> r.files[q] == fs.files[q]
  {
    fs.(files := fs.files[p := text])
  }

  /** `File.AppendAllText`: a missing file is created. */
  function Append(fs: FsState, p: Path, text: string): (r: FsState)
    ensures r.dirs == fs.dirs && r.files.Keys == fs.files.Keys + {p}
    ensures r.files[p] == (if p in fs.files then fs.files[p] else "") + text
    ensures forall q :: q in fs.files && q != p ==> r.files[q] == fs.files[q]
  {
    fs.(files := fs.files[p := (if p in fs.files then fs.files[p] else "") + text])
  }

  /** `File.Delete`: deleting a missing file is not an error. */
  function Remove(fs: FsState, p: Path): (r: FsState)
    ensures r.dirs == fs.dirs && r.files.Keys == fs.files.Keys - {p}
    ensures forall q :: q in r.files ==> r.files[q] == fs.files[q]
  {
    fs.(files := fs.files - {p})
  }

  /**
   * `b` holds the directories of `a`, `d` itself and every ancestor of `d` (each prefix of `d`
   * that ends before a separator), and no other directory.
   */
  ghost predicate MadeDirectory(a: set<Path>, b: set<Path>, d: Path) {
    && a <= b
    && (forall x :: x in b && x !in a ==> 0 < |x| <= |d| && x == d[..|x|] && (|x| == |d| || d[|x|] == Sep))
    && (forall i :: 0 < i <= |d| && (i == |d| || d[i] == Sep) ==> d[..i] in b)
  }

  /** `Directory.CreateDirectory`: the directory and all its missing ancestors. */
  function MakeDirectory(fs: FsState, d: Path): (r: FsState)
    ensures r.files == fs.files && MadeDirectory(fs.dirs, r.dirs, d)
    ensures d != "" ==> d in r.dirs
  {
    assert d != "" ==> d == d[..|d|];
    fs.(dirs := fs.dirs + Ancestors(d))
  }

  /** `Directory.GetFiles(dir, "*" + suffix, TopDirectoryOnly)`, in ordinal order. */
  function FilesIn(fs: FsState, dir: Path, suffix: string): seq<Path> {
    SortedSeq(ChildFiles(fs, dir, suffix))
  }

  /** The files directly in `dir` whose names end with `suffix`. */
  function ChildFiles(fs: FsState, dir: Path, suffix: string): set<Path> {
    set p | p in fs.files && IsChild(p, dir) && EndsWith(p, suffix)
  }

  /** The files listed are those directly in `dir` with the suffix, each once, in increasing order. */
  lemma FilesInLists(fs: FsState, dir: Path, suffix: string)
    ensures Increasing(FilesIn(fs, dir, suffix))
    ensures forall p :: p in FilesIn(fs, dir, suffix) <==> p in fs.files && IsChild(p, dir) && EndsWith(p, suffix)
  {
  }

  /** `Directory.GetDirectories(dir)`, in ordinal order. */
  function DirectoriesIn(fs: FsState, dir: Path): seq<Path> {
    SortedSeq(ChildDirectories(fs, dir))
  }

  /** The directories directly in `dir`. */
  function ChildDirectories(fs: FsState, dir: Path): set<Path> {
    set d | d in fs.dirs && IsChild(d, dir)
  }

  /** The directories listed are those directly in `dir`, each once, in increasing order. */
  lemma DirectoriesInLists(fs: FsState, dir: Path)
    ensures Increasing(DirectoriesIn(fs, dir))
    ensures forall d :: d in DirectoriesIn(fs, dir) <==> d in fs.dirs && IsChild(d, dir)
  {
  }

  class FileSystem {
    var files: map<Path, string>
    var dirs: set<Path>

    function State(): FsState
      reads this
    {
      FsState(files, dirs)
    }

    constructor (initial: FsState)
      ensures State() == initial
    {
      files := initial.files;
      dirs := initial.dirs;
    }

    predicate FileExists(p: Path)
      reads this
    {
      p in files
    }

    predicate DirectoryExists(p: Path)
      reads this
    {
      p in dirs
    }

    method WriteAllText(p: Path, text: string)
      modifies this
      ensures State() == Write(old(State()), p, text)
    {
      files := files[p := text];
    }

    method AppendAllText(p: Path, text: string)
      modifies this
      ensures State() == Append(old(State()), p, text)
    {
      var prior := if p in files then files[p] else "";
      files := files[p := prior + text];
    }

    method Delete(p: Path)
      modifies this
      ensures State() == Remove(old(State()), p)
    {
      files := files - {p};
    }

    method CreateDirectory(d: Path)
      modifies this
      ensures State() == MakeDirectory(old(State()), d)
    {
      dirs := dirs + Ancestors(d);
    }

    method GetFiles(dir: Path, suffix: string) returns (r: seq<Path>)
      ensures r == FilesIn(State(), dir, suffix)
    {
      r := SortedSeq(ChildFiles(State(), dir, suffix));
    }

    method GetDirectories(dir: Path) returns (r: seq<Path>)
      ensures r == DirectoriesIn(State(), dir)
    {
      r := SortedSeq(ChildDirectories(State(), dir));
    }
  }
}
