/**
 * The string functions of .NET's `System.IO.Path` that the build tool relies on, as they behave
 * on a Unix host: the directory separator is '/', and a path is rooted when it starts with it.
 */
module Paths {

  type Path = string

  const Sep: char := '/'
  const CSS_EXT: string := ".css"

  predicate EndsWith(s: string, suffix: string) {
    |suffix| <= |s| && s[|s| - |suffix|..] == suffix
  }

  predicate IsPathRooted(p: Path) {
    |p| > 0 && p[0] == Sep
  }

  /** Index of the last occurrence of `ch` in `s`, or -1 when there is none. */
  function LastIndexOf(s: string, ch: char): (k: int)
    ensures -1 <= k < |s|
    ensures k >= 0 ==> s[k] == ch
    ensures forall j :: k < j < |s| ==> s[j] != ch
  {
    if s == [] then -1
    else if s[|s| - 1] == ch then |s| - 1
    else LastIndexOf(s[..|s| - 1], ch)
  }

  /** `Path.Combine(a, b)`: a rooted or empty second part wins, otherwise one separator joins. */
  function Combine(a: Path, b: Path): Path {
    if b == "" then a
    else if a == "" then b
    else if IsPathRooted(b) then b
    else if a[|a| - 1] == Sep then a + b
    else a + [Sep] + b
  }

  /** `Path.Combine(a, b, c)`, which on Unix agrees with combining from the left. */
  function Combine3(a: Path, b: Path, c: Path): Path {
    Combine(Combine(a, b), c)
  }

  /** `Path.GetFileName`: everything after the last separator. */
  function FileName(p: Path): string {
    p[LastIndexOf(p, Sep) + 1..]
  }

  /** `Path.GetFileNameWithoutExtension`: the file name up to its last dot. */
  function FileNameWithoutExtension(p: Path): string {
    var name := FileName(p);
    var k := LastIndexOf(name, '.');
    if k < 0 then name else name[..k]
  }

  /** Where the extension of `p` starts: its last dot after the last separator, else `|p|`. */
  function ExtensionStart(p: Path): (k: nat)
    ensures k <= |p|
  {
    var d := LastIndexOf(p, '.');
    if d > LastIndexOf(p, Sep) then d else |p|
  }

  /** `Path.ChangeExtension(p, ext)` for an `ext` that starts with a dot. */
  function ChangeExtension(p: Path, ext: string): Path {
    if p == "" then "" else p[..ExtensionStart(p)] + ext
  }

  /** Separators directly before position `end` (and after the root) are trimmed off. */
  function TrimSeparators(p: Path, end: nat, root: nat): (e: nat)
    requires root <= end <= |p|
    ensures root <= e <= end
    decreases end
  {
    if end > root && p[end - 1] == Sep then TrimSeparators(p, end - 1, root) else end
  }

  /**
   * `Path.GetDirectoryName`: the path up to its last separator, with the separators in front of
   * it trimmed, keeping a root. Where .NET returns null (an empty path, or the root alone) this
   * gives the empty path.
   */
  function DirectoryName(p: Path): Path {
    var root := if IsPathRooted(p) then 1 else 0;
    if |p| <= root then ""
    else
      var s := LastIndexOf(p, Sep);
      var end := if s < root then root else s;
      p[..TrimSeparators(p, end, root)]
  }

  /** `p` is an entry directly inside the directory `dir`. */
  predicate IsChild(p: Path, dir: Path) {
    p != dir && FileName(p) != "" && DirectoryName(p) == dir
  }

  /** The directories `Directory.CreateDirectory(d)` makes sure exist: `d` and its ancestors. */
  function Ancestors(d: Path): set<Path> {
    set i | 0 < i <= |d| && (i == |d| || d[i] == Sep) :: d[..i]
  }

  lemma EndsWithTransitive(s: string, t: string, u: string)
    requires EndsWith(s, t) && EndsWith(t, u)
    ensures EndsWith(s, u)
  {
    assert s[|s| - |u|..] == s[|s| - |t|..][|t| - |u|..];
  }

  /** A non-empty second part always ends the combined path. */
  lemma CombineEndsWith(a: Path, b: Path)
    requires b != ""
    ensures EndsWith(Combine(a, b), b)
  {
    var c := Combine(a, b);
    if a != "" && !IsPathRooted(b) {
      if a[|a| - 1] == Sep {
        assert c == a + b && c[|c| - |b|..] == b;
      } else {
        assert c == a + [Sep] + b && c[|c| - |b|..] == b;
      }
    }
  }

  /** The last `ch` of `x + y` lies in `y` when `y` holds one, and is the last of `x` otherwise. */
  lemma {:induction false} LastIndexOfAppend(x: string, y: string, ch: char)
    ensures LastIndexOf(x + y, ch) ==
      var k := LastIndexOf(y, ch);
      if k >= 0 then |x| + k else LastIndexOf(x, ch)
    decreases |y|
  {
    if y == [] {
      assert x + y == x;
    } else {
      var y' := y[..|y| - 1];
      assert (x + y)[..|x + y| - 1] == x + y';
      LastIndexOfAppend(x, y', ch);
    }
  }

  /** Trimming separators in front of `end` looks only at the text before `end`. */
  lemma {:induction false} TrimSeparatorsPrefix(x: Path, y: Path, end: nat, root: nat)
    requires root <= end <= |x| && end <= |y| && x[..end] == y[..end]
    ensures TrimSeparators(x, end, root) == TrimSeparators(y, end, root)
    decreases end
  {
    if end > root {
      assert x[end - 1] == x[..end][end - 1] == y[..end][end - 1] == y[end - 1];
      assert x[..end - 1] == x[..end][..end - 1];
      assert y[..end - 1] == y[..end][..end - 1];
      TrimSeparatorsPrefix(x, y, end - 1, root);
    }
  }

  /** Two paths with the same first char, the same last separator and the same text up to it
      have the same directory name. */
  lemma DirectoryNameSamePrefix(x: Path, y: Path)
    requires |x| > 1 && |y| > 1 && x[0] == y[0]
    requires LastIndexOf(x, Sep) == LastIndexOf(y, Sep)
    requires var s := LastIndexOf(x, Sep); s >= 0 ==> x[..s + 1] == y[..s + 1]
    ensures DirectoryName(x) == DirectoryName(y)
  {
    var root := if IsPathRooted(x) then 1 else 0;
    var s := LastIndexOf(x, Sep);
    var end := if s < root then root else s;
    assert x[..end] == y[..end] by {
      if s >= root {
        assert x[..end] == x[..s + 1][..end] && y[..end] == y[..s + 1][..end];
      }
    }
    TrimSeparatorsPrefix(x, y, end, root);
    var e := TrimSeparators(x, end, root);
    assert x[..e] == x[..end][..e] && y[..e] == y[..end][..e];
  }

  /** A path without separators is its own file name. */
  lemma FileNameOfPlainName(name: string)
    requires Sep !in name
    ensures LastIndexOf(name, Sep) == -1 && FileName(name) == name
  {
  }

  /** File names hold no separator. */
  lemma NamesHoldNoSeparator(p: Path)
    ensures Sep !in FileName(p) && Sep !in FileNameWithoutExtension(p)
  {
    var name := FileName(p);
    var k := LastIndexOf(name, '.');
    if k >= 0 {
      assert forall i :: 0 <= i < k ==> name[..k][i] == name[i];
    }
  }

  /** A separator-free name followed by an extension: the name is what precedes the extension. */
  lemma NameBeforeExtension(name: string, ext: string)
    requires Sep !in name && Sep !in ext
    requires LastIndexOf(ext, '.') == 0
    ensures FileNameWithoutExtension(name + ext) == name
  {
    FileNameOfPlainName(name + ext);
    LastIndexOfAppend(name, ext, '.');
    assert (name + ext)[..|name|] == name;
  }

  /** An extension mark: a dot followed by at least one character, none of them a dot or a separator. */
  predicate IsExtensionMark(ext: string) {
    |ext| > 1 && LastIndexOf(ext, '.') == 0 && Sep !in ext
  }

  /** Changing the extension of `stem + ext` replaces `ext`. */
  lemma ChangeExtensionOf(stem: Path, ext: string, newExt: string)
    requires IsExtensionMark(ext)
    ensures ChangeExtension(stem + ext, newExt) == stem + newExt
  {
    var p := stem + ext;
    assert ExtensionStart(p) == |stem| by {
      LastIndexOfAppend(stem, ext, '.');
      FileNameOfPlainName(ext);
      LastIndexOfAppend(stem, ext, Sep);
    }
    assert p[..|stem|] == stem;
  }

  /** Swapping one extension for another keeps the directory of a path. */
  lemma SwapExtensionKeepsDirectory(stem: Path, e1: string, e2: string)
    requires IsExtensionMark(e1) && IsExtensionMark(e2)
    ensures DirectoryName(stem + e1) == DirectoryName(stem + e2)
  {
    var x, y := stem + e1, stem + e2;
    FileNameOfPlainName(e1);
    FileNameOfPlainName(e2);
    LastIndexOfAppend(stem, e1, Sep);
    LastIndexOfAppend(stem, e2, Sep);
    var s := LastIndexOf(stem, Sep);
    assert x[0] == y[0];
    assert s >= 0 ==> x[..s + 1] == stem[..s + 1] == y[..s + 1];
    DirectoryNameSamePrefix(x, y);
  }

  /** The name without extension of a path is that of its file name. */
  lemma NameOfFileName(p: Path)
    ensures FileNameWithoutExtension(FileName(p)) == FileNameWithoutExtension(p)
  {
    NamesHoldNoSeparator(p);
    FileNameOfPlainName(FileName(p));
  }

  /** Text without separators appended to a path extends its file name. */
  lemma FileNameOfAppend(stem: Path, e: string)
    requires Sep !in e
    ensures FileName(stem + e) == FileName(stem) + e
  {
    var s := LastIndexOf(stem, Sep);
    assert LastIndexOf(stem + e, Sep) == s by {
      FileNameOfPlainName(e);
      LastIndexOfAppend(stem, e, Sep);
    }
    assert FileName(stem + e) == (stem + e)[s + 1..];
    assert (stem + e)[s + 1..] == stem[s + 1..] + e;
  }

  /** Swapping one extension for another keeps the name of a path without its extension. */
  lemma SwapExtensionKeepsName(stem: Path, e1: string, e2: string)
    requires IsExtensionMark(e1) && IsExtensionMark(e2)
    ensures FileNameWithoutExtension(stem + e1) == FileNameWithoutExtension(stem + e2)
  {
    var middle := FileName(stem);
    NamesHoldNoSeparator(stem);
    FileNameOfAppend(stem, e1);
    FileNameOfAppend(stem, e2);
    NameOfFileName(stem + e1);
    NameOfFileName(stem + e2);
    NameBeforeExtension(middle, e1);
    NameBeforeExtension(middle, e2);
  }

  /** The last separator of `base/leaf`, where `leaf` holds none, is the one joining them. */
  lemma SeparatorOfLeaf(base: Path, leaf: string)
    requires Sep !in leaf
    ensures LastIndexOf(base + [Sep] + leaf, Sep) == |base|
  {
    FileNameOfPlainName(leaf);
    assert base + [Sep] + leaf == (base + [Sep]) + leaf;
    LastIndexOfAppend(base + [Sep], leaf, Sep);
  }

  /** The directory of `base/leaf` is `base`, where `base` does not end in a separator. */
  lemma DirectoryOfLeaf(base: Path, leaf: string)
    requires base != "" && base[|base| - 1] != Sep
    requires LastIndexOf(base + [Sep] + leaf, Sep) == |base|
    ensures DirectoryName(base + [Sep] + leaf) == base
  {
    var p := base + [Sep] + leaf;
    assert p[0] == base[0];
    var root := if IsPathRooted(base) then 1 else 0;
    assert |base| > root by {
      if |base| == 1 {
        assert base[0] != Sep;
      }
    }
    assert DirectoryName(p) == p[..TrimSeparators(p, |base|, root)];
    assert p[|base| - 1] == base[|base| - 1];
    assert TrimSeparators(p, |base|, root) == |base|;
    assert p[..|base|] == base;
  }

  /** The separators at the end of `p` trimmed off, keeping a root. */
  function TrimEnd(p: Path): Path {
    var root := if IsPathRooted(p) then 1 else 0;
    if |p| <= root then p else p[..TrimSeparators(p, |p|, root)]
  }

  /**
   * A separator-free name joined under any directory: the name is the file name of the result,
   * and the directory, without the separators at its end, is its directory name.
   */
  lemma CombinePlain(base: Path, leaf: string)
    requires leaf != "" && Sep !in leaf
    ensures var p := Combine(base, leaf);
      FileName(p) == leaf && DirectoryName(p) == TrimEnd(base) && EndsWith(p, leaf)
  {
    CombineEndsWith(base, leaf);
    if base == "" {
      FileNameOfPlainName(leaf);
      assert Combine(base, leaf) == leaf && !IsPathRooted(leaf);
    } else if base[|base| - 1] != Sep {
      assert Combine(base, leaf) == base + [Sep] + leaf;
      PlainUnderName(base, leaf);
    } else {
      assert Combine(base, leaf) == base + leaf;
      PlainUnderSeparator(base, leaf);
    }
  }

  /** The case of `CombinePlain` where the directory does not end in a separator. */
  lemma PlainUnderName(base: Path, leaf: string)
    requires leaf != "" && Sep !in leaf && base != "" && base[|base| - 1] != Sep
    ensures var p := base + [Sep] + leaf;
      FileName(p) == leaf && DirectoryName(p) == TrimEnd(base)
  {
    var p := base + [Sep] + leaf;
    SeparatorOfLeaf(base, leaf);
    DirectoryOfLeaf(base, leaf);
    assert p[|base| + 1..] == leaf;
    var root := if IsPathRooted(base) then 1 else 0;
    assert |base| > root by {
      if |base| == 1 {
        assert base[0] != Sep;
      }
    }
    assert base[..|base|] == base;
  }

  /** The case of `CombinePlain` where the directory ends in a separator. */
  lemma PlainUnderSeparator(base: Path, leaf: string)
    requires leaf != "" && Sep !in leaf && base != "" && base[|base| - 1] == Sep
    ensures var p := base + leaf;
      FileName(p) == leaf && DirectoryName(p) == TrimEnd(base)
  {
    var p := base + leaf;
    LastSeparatorBeforePlain(base, leaf);
    assert p[|base|..] == leaf;
    DirectoryUnderSeparator(base, leaf);
  }

  /** The last separator of a directory ending in one, followed by a separator-free name. */
  lemma LastSeparatorBeforePlain(base: Path, leaf: string)
    requires Sep !in leaf && base != "" && base[|base| - 1] == Sep
    ensures LastIndexOf(base + leaf, Sep) == |base| - 1
  {
    FileNameOfPlainName(leaf);
    LastIndexOfAppend(base, leaf, Sep);
  }

  /** The directory name of a name under a directory ending in a separator is that directory,
      trimmed. */
  lemma DirectoryUnderSeparator(base: Path, leaf: string)
    requires leaf != "" && base != "" && base[|base| - 1] == Sep
    requires LastIndexOf(base + leaf, Sep) == |base| - 1
    ensures DirectoryName(base + leaf) == TrimEnd(base)
  {
    var p := base + leaf;
    var s := |base| - 1;
    var root := if IsPathRooted(base) then 1 else 0;
    assert IsPathRooted(p) == IsPathRooted(base) by {
      assert p[0] == base[0];
    }
    if s < root {
      assert base == [Sep];
      assert DirectoryName(p) == p[..TrimSeparators(p, root, root)];
      assert p[..1] == base;
    } else {
      assert DirectoryName(p) == p[..TrimSeparators(p, s, root)];
      assert p[..s] == base[..s];
      TrimSeparatorsPrefix(p, base, s, root);
      var e := TrimSeparators(base, s, root);
      assert TrimEnd(base) == base[..e];
      assert p[..e] == base[..e];
    }
  }

  /** A file `name + ext` joined under a directory: the path lies in that directory, without the
      separators at its end, is called `name` and ends with `ext`. */
  lemma CombineFileWithExtension(base: Path, name: string, ext: string)
    requires Sep !in name && IsExtensionMark(ext)
    ensures var p := Combine(base, name + ext);
      && DirectoryName(p) == TrimEnd(base) && FileNameWithoutExtension(p) == name && EndsWith(p, ext)
  {
    var leaf := name + ext;
    assert Sep !in leaf by {
      assert forall i :: 0 <= i < |leaf| ==> leaf[i] == if i < |name| then name[i] else ext[i - |name|];
    }
    CombinePlain(base, leaf);
    var p := Combine(base, leaf);
    NameOfFileName(p);
    NameBeforeExtension(name, ext);
    assert leaf[|leaf| - |ext|..] == ext;
    EndsWithTransitive(p, leaf, ext);
  }
}
