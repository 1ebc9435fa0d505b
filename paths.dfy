/** POSIX path joining, and the slice the sync tool uses to turn a path
    found under a directory back into a path relative to that directory. */
module Paths {

  /** Python's `os.path.join(a, b)` on POSIX: an absolute `b` replaces `a`;
      otherwise one "/" goes between them unless `a` is empty or already
      ends with one. */
  function Join(a: string, b: string): string
  {
    if b != [] && b[0] == '/' then b
    else if a == [] || a[|a| - 1] == '/' then a + b
    else a + "/" + b
  }

  /** `os.path.basename(p)`: the text after the last "/" of `p`. */
  function Basename(p: string): (r: string)
    ensures |r| <= |p| && r == p[|p| - |r|..]
    ensures forall i :: 0 <= i < |r| ==> r[i] != '/'
    ensures |r| == |p| || p[|p| - |r| - 1] == '/'
    decreases |p|
  {
    if p == [] || p[|p| - 1] == '/' then []
    else
      var init := Basename(p[..|p| - 1]);
      BasenameStep(p, init);
      init + [p[|p| - 1]]
  }

  /** The base name of `p` minus its last character, extended by that
      character when it is not a "/", is the base name of `p`. */
  lemma BasenameStep(p: string, init: string)
    requires p != [] && p[|p| - 1] != '/'
    requires |init| <= |p| - 1 && init == p[..|p| - 1][|p| - 1 - |init|..]
    requires forall i :: 0 <= i < |init| ==> init[i] != '/'
    requires |init| == |p| - 1 || p[..|p| - 1][|p| - 1 - |init| - 1] == '/'
    ensures var r := init + [p[|p| - 1]];
            r == p[|p| - |r|..] && (forall i :: 0 <= i < |r| ==> r[i] != '/')
            && (|r| == |p| || p[|p| - |r| - 1] == '/')
  {
    var q := p[..|p| - 1];
    assert q[|q| - |init|..] + [p[|p| - 1]] == p[|p| - 1 - |init|..];
    assert |init| < |q| ==> p[|p| - |init| - 2] == q[|q| - |init| - 1];
  }

  /** The base name of a relative path joined under a directory is the
      base name of the relative path. */
  lemma {:induction false} BasenameOfJoin(dir: string, rel: string)
    requires dir != [] && dir[|dir| - 1] != '/'
    requires rel == [] || rel[0] != '/'
    ensures Basename(Join(dir, rel)) == Basename(rel)
    decreases |rel|
  {
    if rel == [] {
      assert Join(dir, rel) == dir + "/";
      BasenameSnoc(dir, '/');
    } else {
      var init := rel[..|rel| - 1];
      var last := rel[|rel| - 1];
      assert rel == init + [last];
      assert init == [] || init[0] == rel[0];
      assert Join(dir, rel) == Join(dir, init) + [last];
      BasenameSnoc(Join(dir, init), last);
      BasenameSnoc(init, last);
      if last != '/' {
        BasenameOfJoin(dir, init);
      }
    }
  }

  /** One more character: a "/" leaves no basename, any other extends it. */
  lemma BasenameSnoc(p: string, c: char)
    ensures Basename(p + [c]) == if c == '/' then [] else Basename(p) + [c]
  {
    assert (p + [c])[..|p|] == p;
  }

  /** Python's slice `s[n:]` for `n >= 0`: empty when `n` is past the end. */
  function SliceFrom(s: string, n: nat): (r: string)
    ensures |r| == if n <= |s| then |s| - n else 0
    ensures forall i :: 0 <= i < |r| ==> r[i] == s[n + i]
  {
    if n <= |s| then s[n..] else []
  }

  /** `path[len(top_dir) + 1:]` as the tool writes it: it always skips one
      character after `top`, taking it for the separator. */
  function RelPathAsWritten(top: string, path: string): string
  {
    SliceFrom(path, |top| + 1)
  }

  /** The path below `top`, which the slice is meant to compute: the
      separator is skipped only when `os.path.join` inserted one. */
  function RelPath(top: string, path: string): string
  {
    if top == [] || top[|top| - 1] == '/' then SliceFrom(path, |top|) else SliceFrom(path, |top| + 1)
  }

  /** A relative path joined under a directory and cut off again gives back
      the relative path. */
  lemma RelPathOfJoin(top: string, rel: string)
    requires rel == [] || rel[0] != '/'
    ensures RelPath(top, Join(top, rel)) == rel
  {
    if top == [] || top[|top| - 1] == '/' {
      assert Join(top, rel)[|top|..] == rel;
    } else {
      assert Join(top, rel)[|top| + 1..] == rel;
    }
  }

  /** The slice as written is right for a directory that is named without a
      trailing "/", as the diff package's ".add" directory always is. */
  lemma RelPathAsWrittenWithoutTrailingSlash(top: string, rel: string)
    requires top != [] && top[|top| - 1] != '/'
    requires rel == [] || rel[0] != '/'
    ensures RelPathAsWritten(top, Join(top, rel)) == rel
  {
    RelPathOfJoin(top, rel);
  }

  /** For a directory named with a trailing "/" the slice as written drops
      the first character of every relative path. */
  lemma RelPathAsWrittenWithTrailingSlash(top: string, rel: string)
    requires top != [] && top[|top| - 1] == '/'
    requires rel != [] && rel[0] != '/'
    ensures RelPathAsWritten(top, Join(top, rel)) == rel[1..]
  {
    assert Join(top, rel) == top + rel;
    assert (top + rel)[|top| + 1..] == rel[1..];
  }

  /** A concrete case: under "src/" the file "src/ab" is recorded as "b",
      and so is "src/cb", so two different files collide on one key. */
  lemma RelPathAsWrittenCollides()
    ensures Join("src/", "ab") == "src/ab" && Join("src/", "cb") == "src/cb"
    ensures RelPathAsWritten("src/", "src/ab") == "b"
    ensures RelPathAsWritten("src/", "src/cb") == "b"
    ensures RelPath("src/", "src/ab") == "ab" && RelPath("src/", "src/cb") == "cb"
  {
    RelPathAsWrittenWithTrailingSlash("src/", "ab");
    RelPathAsWrittenWithTrailingSlash("src/", "cb");
    RelPathOfJoin("src/", "ab");
    RelPathOfJoin("src/", "cb");
  }
}
