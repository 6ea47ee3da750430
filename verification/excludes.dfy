/**
 * The pure half of `GetExcludesFromGitIgnore`: the text printed by
 * `git ls-files --others --ignored --exclude-standard --directory` becomes a set of full paths.
 * Running git is not modelled; its printed text (None when it fails) is the input.
 */
module Excludes {
  import opened Wrappers
  import opened Paths

  /** Index of the first occurrence of `ch` in `s`, or -1. */
  function FirstIndexOf(s: string, ch: char): (k: int)
    ensures -1 <= k < |s|
    ensures k >= 0 ==> s[k] == ch
  {
    if s == [] then -1
    else if s[0] == ch then 0
    else
      var k := FirstIndexOf(s[1..], ch);
      if k < 0 then -1 else k + 1
  }

  function NonEmpty(s: string): seq<string> {
    if s == "" then [] else [s]
  }

  /** `s.Split("\n", StringSplitOptions.RemoveEmptyEntries)`. */
  function Lines(s: string): (r: seq<string>)
    decreases |s|
  {
    var k := FirstIndexOf(s, '\n');
    if k < 0 then NonEmpty(s) else NonEmpty(s[..k]) + Lines(s[k + 1..])
  }

  /** The first `ch` of `a + b` is the first of `a`, or else the first of `b`. */
  lemma {:induction false} FirstIndexOfConcat(a: string, b: string, ch: char)
    ensures FirstIndexOf(a + b, ch) ==
      var k := FirstIndexOf(a, ch);
      var m := FirstIndexOf(b, ch);
      if k >= 0 then k else if m >= 0 then |a| + m else -1
  {
    if a != [] {
      assert (a + b)[1..] == a[1..] + b;
      FirstIndexOfConcat(a[1..], b, ch);
    } else {
      assert a + b == b;
    }
  }

  /** The first newline of `a + "\n" + b` is the first of `a`, or else the one joining them. */
  lemma FirstNewlineOfJoin(a: string, b: string)
    ensures var k := FirstIndexOf(a, '\n');
      FirstIndexOf(a + "\n" + b, '\n') == if k >= 0 then k else |a|
  {
    assert a + "\n" + b == a + ("\n" + b);
    FirstIndexOfConcat(a, "\n" + b, '\n');
    assert FirstIndexOf("\n" + b, '\n') == 0;
  }

  /** Text without a newline is one line in front of the joined text's lines. */
  lemma LinesJoinWhole(a: string, b: string)
    requires FirstIndexOf(a, '\n') < 0
    ensures Lines(a + "\n" + b) == NonEmpty(a) + Lines(b)
  {
    var s := a + "\n" + b;
    FirstNewlineOfJoin(a, b);
    assert s[..|a|] == a && s[|a| + 1..] == b;
  }

  /** The lines of the joined text start with the first line of `a`. */
  lemma LinesJoinFirst(a: string, b: string, k: int)
    requires k == FirstIndexOf(a, '\n') && k >= 0
    ensures Lines(a + "\n" + b) == NonEmpty(a[..k]) + Lines(a[k + 1..] + "\n" + b)
  {
    var s := a + "\n" + b;
    calc {
      Lines(s);
    == { FirstNewlineOfJoin(a, b); }
      NonEmpty(s[..k]) + Lines(s[k + 1..]);
    == { assert s[..k] == a[..k]; assert s[k + 1..] == a[k + 1..] + "\n" + b; }
      NonEmpty(a[..k]) + Lines(a[k + 1..] + "\n" + b);
    }
  }

  /** Splitting at a newline splits the line list there. */
  lemma {:induction false} LinesJoin(a: string, b: string)
    ensures Lines(a + "\n" + b) == Lines(a) + Lines(b)
    decreases |a|
  {
    var k := FirstIndexOf(a, '\n');
    if k < 0 {
      LinesJoinWhole(a, b);
    } else {
      var rest := a[k + 1..];
      calc {
        Lines(a + "\n" + b);
      == { LinesJoinFirst(a, b, k); }
        NonEmpty(a[..k]) + Lines(rest + "\n" + b);
      == { LinesJoin(rest, b); }
        NonEmpty(a[..k]) + (Lines(rest) + Lines(b));
      ==
        (NonEmpty(a[..k]) + Lines(rest)) + Lines(b);
      }
    }
  }

  lemma LinesOfOneLine(line: string)
    requires line != "" && '\n' !in line
    ensures Lines(line) == [line]
  {
  }

  /** No `ch` comes before the first one. */
  lemma {:induction false} FirstIndexOfIsFirst(s: string, ch: char)
    ensures var k := FirstIndexOf(s, ch);
      forall j :: 0 <= j < (if k < 0 then |s| else k) ==> s[j] != ch
  {
    if s != [] && s[0] != ch {
      FirstIndexOfIsFirst(s[1..], ch);
      assert forall j :: 1 <= j < |s| ==> s[j] == s[1..][j - 1];
    }
  }

  /** Every entry is a whole line: not empty, and without a newline. */
  lemma {:induction false} LinesAreLines(s: string)
    ensures forall i :: 0 <= i < |Lines(s)| ==> Lines(s)[i] != "" && '\n' !in Lines(s)[i]
    decreases |s|
  {
    var k := FirstIndexOf(s, '\n');
    FirstIndexOfIsFirst(s, '\n');
    if k >= 0 {
      LinesAreLines(s[k + 1..]);
      assert '\n' !in s[..k];
      LinesAtFirstNewline(s, k);
    }
  }

  /** Text that starts a fresh line: empty, or ending in a newline. */
  predicate AtLineStart(before: string) {
    before == "" || before[|before| - 1] == '\n'
  }

  /** Text that ends the current line: empty, or starting with a newline. */
  predicate AtLineEnd(after: string) {
    after == "" || after[0] == '\n'
  }

  /** The first newline of a line followed by a newline is the one that ends it. */
  lemma NewlineEndingLine(line: string, after: string)
    requires '\n' !in line && after != "" && after[0] == '\n'
    ensures FirstIndexOf(line + after, '\n') == |line|
  {
    FirstIndexOfConcat(line, after, '\n');
  }

  /** The lines of a text are its first line, if not empty, then the lines after its first newline. */
  lemma LinesAtFirstNewline(s: string, k: int)
    requires k == FirstIndexOf(s, '\n') && k >= 0
    ensures Lines(s) == NonEmpty(s[..k]) + Lines(s[k + 1..])
  {
  }

  /** A line ended by a newline at the very start of the text is one of its entries. */
  lemma LineBeforeNewlineIsListed(line: string, after: string)
    requires line != "" && '\n' !in line && after != "" && after[0] == '\n'
    ensures line in Lines(line + after)
  {
    var s := line + after;
    NewlineEndingLine(line, after);
    LinesAtFirstNewline(s, |line|);
    assert s[..|line|] == line;
  }

  /** A line at the very start of the text is one of its entries. */
  lemma FirstLineIsListed(line: string, after: string)
    requires line != "" && '\n' !in line && AtLineEnd(after)
    ensures line in Lines(line + after)
  {
    if after == "" {
      LinesOfOneLine(line);
      assert line + after == line;
    } else {
      LineBeforeNewlineIsListed(line, after);
    }
  }

  /** A line after a newline is listed when it is listed in the text from there on. */
  lemma LaterLineIsListed(before: string, line: string, rest: string)
    requires before != "" && before[|before| - 1] == '\n' && line in Lines(rest)
    ensures line in Lines(before + rest)
  {
    var b := before[..|before| - 1];
    calc {
      Lines(before + rest);
    == { assert before + rest == b + "\n" + rest; }
      Lines(b + "\n" + rest);
    == { LinesJoin(b, rest); }
      Lines(b) + Lines(rest);
    }
  }

  /** A whole line of the text, wherever it stands, is one of its entries. */
  lemma LineIsListed(before: string, line: string, after: string)
    requires line != "" && '\n' !in line
    requires AtLineStart(before) && AtLineEnd(after)
    ensures line in Lines(before + line + after)
  {
    FirstLineIsListed(line, after);
    assert before + line + after == before + (line + after);
    if before != "" {
      LaterLineIsListed(before, line, line + after);
    } else {
      assert before + (line + after) == line + after;
    }
  }

  /**
   * The exclusion set of directory `dir` from git's printed output: each non-empty line joined
   * to `dir`, and nothing else. Any failure to run git (None) yields no exclusions. Git prints '/',
   * which is already the separator of the host modelled, so no separator is replaced.
   */
  function GitExcludes(dir: Path, output: Option<string>): (r: set<Path>)
    ensures output.None? ==> r == {}
    ensures output.Some? ==> forall line :: line in Lines(output.value) ==> Combine(dir, line) in r
    ensures output.Some? ==> forall p :: p in r ==> exists line :: line in Lines(output.value) && p == Combine(dir, line)
  {
    match output
    case None => {}
    case Some(text) => set line | line in Lines(text) :: Combine(dir, line)
  }

  /**
   * git lists an ignored directory `name` as the line `name/`; its exclusion entry is exactly the
   * `directory + separator` form the walk tests before entering that directory.
   */
  lemma IgnoredDirectoryIsExcluded(dir: Path, before: string, name: string, after: string)
    requires dir != "" && dir[|dir| - 1] != Sep
    requires name != "" && name[0] != Sep && '\n' !in name
    requires AtLineStart(before) && AtLineEnd(after)
    ensures Combine(dir, name) + [Sep] in GitExcludes(dir, Some(before + name + "/" + after))
  {
    var line := name + "/";
    assert before + name + "/" + after == before + line + after;
    LineIsListed(before, line, after);
    assert Combine(dir, line) == Combine(dir, name) + [Sep];
  }
}
