/** `patch`: applies a diff package to a destination directory in three
    steps, strictly in this order: the deletes of `.delete` (only when asked
    to), the renames of `.rename`, then a copy of every file of `.add`. The
    destination is an object whose files the steps change in place; the
    first failing call ends the run and leaves the changes made so far. */
module Patcher {
  import opened Results
  import opened Text
  import opened Paths
  import opened Hashing
  import opened Snapshot
  import opened DiffPackage

  /** The calls of `patch` that fail, as the model sees them. */
  datatype PatchError =
    | NotAFile(path: string)         // `os.unlink` of a directory; a file renamed or copied onto a directory
    | NoSuchFile(path: string)       // `os.rename` of a source that does not exist
    | CannotMove(path: string)       // `os.rename` of a directory onto a file, a non-empty directory or a path inside it
    | NotADirectory(path: string)    // `os.makedirs` meets a file where a directory above `path` should be
    | MalformedRename(line: string)  // a `.rename` line with fewer than two names

  /** The destination's files after a step, and the error that ended the
      run, if any. */
  datatype Outcome = Outcome(files: Tree, error: Option<PatchError>)

  /** `k` lies inside the directory `dir`. */
  predicate Below(k: string, dir: string) {
    |dir| < |k| && k[..|dir|] == dir && k[|dir|] == '/'
  }

  /** `p` names a directory of the destination: the destination itself
      (the empty name), or a directory that holds some file. */
  predicate IsDirectory(files: Tree, p: string) {
    p == [] || exists k :: k in files && Below(k, p)
  }

  /** Some directory above `p` is a file, so `os.makedirs` cannot create
      the directories `p` needs. */
  predicate Blocked(files: Tree, p: string) {
    exists k :: k in files && Below(p, k)
  }

  /** What one line or file of the package asks for: a `.delete` line,
      stripped, names a file to delete; a `.rename` line names a pair, or is
      malformed; a file of `.add` is copied to its relative path. */
  datatype Command =
    | Delete(name: string)
    | Rename(pair: Result<(string, string), PatchError>)
    | Copy(path: string, content: seq<byte>)

  /** The `(old, new)` pair a `.rename` line names: the first two of the
      pieces the stripped line splits into at " -> "; with fewer than two
      pieces `names[1]` raises IndexError. */
  function ParseRenameLine(line: string): (r: Result<(string, string), PatchError>)
    ensures r.Err? <==> Lacks(Strip(line), " -> ")
    ensures r.Ok? ==> Lacks(r.value.0, " -> ") && Lacks(r.value.1, " -> ")
  {
    var s := Strip(line);
    var names := Split(s, " -> ", -1);
    SplitJoined(s, " -> ", -1);
    if Lacks(s, " -> ") then
      SplitWhole(s, " -> ", -1);
      Err(MalformedRename(line))
    else if |names| < 2 then Err(MalformedRename(line))
    else Ok((names[0], names[1]))
  }

  /** The commands of a `.delete` manifest, one per line read. */
  function DeleteCommands(manifest: string): (r: seq<Command>)
    ensures |r| == |ReadLines(manifest)|
  {
    var ls := ReadLines(manifest);
    seq(|ls|, k requires 0 <= k < |ls| => Delete(Strip(ls[k])))
  }

  /** The commands of a `.rename` manifest, one per line read. */
  function RenameCommands(manifest: string): (r: seq<Command>)
    ensures |r| == |ReadLines(manifest)|
  {
    var ls := ReadLines(manifest);
    seq(|ls|, k requires 0 <= k < |ls| => Rename(ParseRenameLine(ls[k])))
  }

  /** The copies of the files of `.add`, in the order `os.walk` finds them. */
  function CopyCommands(addWalk: seq<string>, add: Tree): (r: seq<Command>)
    requires forall rel :: rel in addWalk ==> rel in add
    ensures |r| == |addWalk|
  {
    seq(|addWalk|, k requires 0 <= k < |addWalk| => Copy(addWalk[k], add[addWalk[k]]))
  }

  /** Deleting `name`: an existing file is unlinked, a directory cannot be,
      and a name that does not exist is skipped. */
  function DeleteOne(files: Tree, name: string): Outcome
  {
    if name in files then Outcome(files - {name}, None)
    else if IsDirectory(files, name) then Outcome(files, Some(NotAFile(name)))
    else Outcome(files, None)
  }

  /** The files of `files` with the directory `src` moved to `dst`: every
      file inside `src` now lies at the same place inside `dst`. */
  function MoveDir(files: Tree, src: string, dst: string): Tree
  {
    MovedKeysDistinct(src, dst);
    var kept := map k | k in files && !Below(k, src) :: files[k];
    var moved := map k | k in files && Below(k, src) :: dst + k[|src|..] := files[k];
    kept + moved
  }

  /** Every file inside `src` is now at the same place inside `dst`; every
      file there came from inside `src` or was there before; and every path
      outside both directories is left alone. */
  lemma MoveDirMoves(files: Tree, src: string, dst: string)
    ensures var r := MoveDir(files, src, dst);
            (forall k :: k in files && Below(k, src) ==> dst + k[|src|..] in r && r[dst + k[|src|..]] == files[k])
            && (forall p :: p in r ==> (p in files && !Below(p, src)) || (Below(p, dst) && src + p[|dst|..] in files))
            && (forall p :: !Below(p, src) && !Below(p, dst) ==> (p in r <==> p in files) && (p in r ==> r[p] == files[p]))
  {
    MovedKeysDistinct(src, dst);
    var moved := map k | k in files && Below(k, src) :: dst + k[|src|..] := files[k];
    forall p | p in moved ensures Below(p, dst) && src + p[|dst|..] in files {
      var k :| k in files && Below(k, src) && p == dst + k[|src|..];
      assert p[|dst|..] == k[|src|..];
      assert k == k[..|src|] + k[|src|..];
    }
  }

  /** Two different paths inside `src` land on two different paths. */
  lemma MovedKeysDistinct(src: string, dst: string)
    ensures forall k1, k2 :: Below(k1, src) && Below(k2, src) && dst + k1[|src|..] == dst + k2[|src|..] ==> k1 == k2
  {
    forall k1, k2 | Below(k1, src) && Below(k2, src) && dst + k1[|src|..] == dst + k2[|src|..] ensures k1 == k2 {
      assert k1[|src|..] == (dst + k1[|src|..])[|dst|..];
      assert k2[|src|..] == (dst + k2[|src|..])[|dst|..];
      assert k1 == k1[..|src|] + k1[|src|..];
      assert k2 == k2[..|src|] + k2[|src|..];
    }
  }

  /** `os.rename(src, dst)` after `os.makedirs` of `dst`'s directory: that
      fails when a file stands where a directory above `dst` should be. A
      file moves onto any path that is not a directory, replacing a file
      there. A directory moves, with everything in it, onto a path that
      does not exist and does not lie inside it (or onto itself). A source
      that does not exist is an error. */
  function RenameOne(files: Tree, src: string, dst: string): Outcome
  {
    if Blocked(files, dst) then Outcome(files, Some(NotADirectory(dst)))
    else if src in files then
      if IsDirectory(files, dst) then Outcome(files, Some(NotAFile(dst)))
      else Outcome((files - {src})[dst := files[src]], None)
    else if IsDirectory(files, src) then
      if src == [] || dst in files || (dst != src && IsDirectory(files, dst)) || Below(dst, src) then
        Outcome(files, Some(CannotMove(src)))
      else Outcome(MoveDir(files, src, dst), None)
    else Outcome(files, Some(NoSuchFile(src)))
  }

  /** Where `shutil.copy2` puts a file copied to `rel`: into the directory
      `rel` under the file's own name when `rel` is a directory, at `rel`
      otherwise. */
  function CopyTarget(files: Tree, rel: string): string
  {
    if IsDirectory(files, rel) then Join(rel, Basename(rel)) else rel
  }

  /** Copying a file of `.add` to `rel` after `os.makedirs` of its
      directory: the copy lands at `CopyTarget`, replacing a file there, and
      fails when that is a directory. */
  function CopyOne(files: Tree, rel: string, content: seq<byte>): Outcome
  {
    if Blocked(files, rel) then Outcome(files, Some(NotADirectory(rel)))
    else
      var target := CopyTarget(files, rel);
      if IsDirectory(files, target) then Outcome(files, Some(NotAFile(target)))
      else Outcome(files[target := content], None)
  }

  function Step(files: Tree, c: Command): Outcome
  {
    match c
    case Delete(name) => DeleteOne(files, name)
    case Rename(Err(e)) => Outcome(files, Some(e))
    case Rename(Ok((src, dst))) => RenameOne(files, src, dst)
    case Copy(rel, content) => CopyOne(files, rel, content)
  }

  /** Commands carried out in order; the first failing one ends the run. */
  function Run(files: Tree, cmds: seq<Command>): Outcome
    decreases |cmds|
  {
    if cmds == [] then Outcome(files, None)
    else
      var o := Run(files, cmds[..|cmds| - 1]);
      if o.error.Some? then o else Step(o.files, cmds[|cmds| - 1])
  }

  /** What `patch` does to a destination holding `files`: deletes when
      `delete` is set, then renames, then copies every file of `.add`, in
      the order `addWalk` in which the walk of `.add` finds them. */
  function Patched(files: Tree, pkg: Package, addWalk: seq<string>, delete: bool): Outcome
    requires forall rel :: rel in addWalk ==> rel in pkg.add
  {
    Applied(files, if delete then DeleteCommands(pkg.deleteManifest) else [],
            RenameCommands(pkg.renameManifest), CopyCommands(addWalk, pkg.add))
  }

  /** The three steps of `patch`, given their commands: the deletes, then
      the renames, then the copies. */
  function Applied(files: Tree, deletes: seq<Command>, renames: seq<Command>, copies: seq<Command>): Outcome
  {
    var afterDelete := Run(files, deletes);
    if afterDelete.error.Some? then afterDelete
    else
      var afterRename := Run(afterDelete.files, renames);
      if afterRename.error.Some? then afterRename
      else Run(afterRename.files, copies)
  }

  /** The destination directory: the content of each of its files, by path
      relative to it. */
  class FileTree {
    var files: Tree

    constructor (initial: Tree)
      ensures files == initial
    {
      files := initial;
    }

    /** `os.path.exists` */
    predicate Exists(p: string)
      reads this
    {
      p in files || IsDirectory(files, p)
    }

    /** `os.unlink` of a file. */
    method Unlink(p: string)
      requires p in files
      modifies this
      ensures files == old(files) - {p}
    {
      files := files - {p};
    }

    /** `os.rename` of a file to a path that is not a directory. */
    method Rename(src: string, dst: string)
      requires src in files && !IsDirectory(files, dst)
      modifies this
      ensures files == (old(files) - {src})[dst := old(files)[src]]
    {
      files := (files - {src})[dst := files[src]];
    }

    /** `os.rename` of a directory to a path that does not exist. */
    method RenameDirectory(src: string, dst: string)
      requires IsDirectory(files, src) && dst !in files && !Below(dst, src)
      modifies this
      ensures files == MoveDir(old(files), src, dst)
    {
      files := MoveDir(files, src, dst);
    }

    /** The file `shutil.copy2` writes at a path that is not a directory. */
    method Write(dst: string, content: seq<byte>)
      requires !IsDirectory(files, dst)
      modifies this
      ensures files == old(files)[dst := content]
    {
      files := files[dst := content];
    }
  }

  /** `patch`. `addWalk` lists the files `os.walk` finds under `.add`,
      relative to it; `diffDir` is the package directory. */
  method Patch(diffDir: string, pkg: Package, addWalk: seq<string>, dest: FileTree, delete: bool)
    returns (err: Option<PatchError>)
    requires forall rel :: rel in addWalk <==> rel in pkg.add
    requires forall rel :: rel in addWalk ==> Relative(rel)
    modifies dest
    ensures Outcome(dest.files, err) == Patched(old(dest.files), pkg, addWalk, delete)
  {
    if delete {
      err := DeleteListed(pkg.deleteManifest, dest);
      if err.Some? {
        return;
      }
    }
    err := RenameListed(pkg.renameManifest, dest);
    if err.Some? {
      return;
    }
    err := CopyAdded(Join(diffDir, ".add"), pkg.add, addWalk, dest);
  }

  /** The first loop of `patch`: every stripped `.delete` line that exists
      is unlinked. */
  method DeleteListed(manifest: string, dest: FileTree) returns (err: Option<PatchError>)
    modifies dest
    ensures Outcome(dest.files, err) == Run(old(dest.files), DeleteCommands(manifest))
  {
    ghost var start := dest.files;
    ghost var cmds := DeleteCommands(manifest);
    var lines := ReadLines(manifest);
    for i := 0 to |lines|
      invariant Run(start, cmds[..i]) == Outcome(dest.files, None)
    {
      var line := Strip(lines[i]);
      assert cmds[i] == Delete(line);
      RunStep(start, cmds, i);
      if dest.Exists(line) {
        if line !in dest.files {
          RunErrorSticks(start, cmds, i + 1);
          return Some(NotAFile(line));
        }
        dest.Unlink(line);
      }
    }
    WholePrefix(cmds);
    err := None;
  }

  /** The second loop of `patch`: every `.rename` line moves a file or a
      directory. */
  method RenameListed(manifest: string, dest: FileTree) returns (err: Option<PatchError>)
    modifies dest
    ensures Outcome(dest.files, err) == Run(old(dest.files), RenameCommands(manifest))
  {
    ghost var start := dest.files;
    ghost var cmds := RenameCommands(manifest);
    var lines := ReadLines(manifest);
    for i := 0 to |lines|
      invariant Run(start, cmds[..i]) == Outcome(dest.files, None)
    {
      var names := ParseRenameLine(lines[i]);
      assert cmds[i] == Rename(names);
      RunStep(start, cmds, i);
      var e: Option<PatchError> := None;
      if names.Err? {
        e := Some(names.error);
      } else {
        var (src, dst) := names.value;
        if Blocked(dest.files, dst) {
          e := Some(NotADirectory(dst));
        } else if src in dest.files {
          if IsDirectory(dest.files, dst) {
            e := Some(NotAFile(dst));
          } else {
            dest.Rename(src, dst);
          }
        } else if IsDirectory(dest.files, src) {
          if src == [] || dst in dest.files || (dst != src && IsDirectory(dest.files, dst)) || Below(dst, src) {
            e := Some(CannotMove(src));
          } else {
            dest.RenameDirectory(src, dst);
          }
        } else {
          e := Some(NoSuchFile(src));
        }
      }
      if e.Some? {
        RunErrorSticks(start, cmds, i + 1);
        return e;
      }
    }
    WholePrefix(cmds);
    err := None;
  }

  /** The third loop of `patch`: every file found under `addDir` is copied
      to the destination under its path relative to `addDir`. */
  method CopyAdded(addDir: string, add: Tree, addWalk: seq<string>, dest: FileTree)
    returns (err: Option<PatchError>)
    requires addDir != [] && addDir[|addDir| - 1] != '/'
    requires forall rel :: rel in addWalk ==> rel in add && Relative(rel)
    modifies dest
    ensures Outcome(dest.files, err) == Run(old(dest.files), CopyCommands(addWalk, add))
  {
    ghost var start := dest.files;
    ghost var cmds := CopyCommands(addWalk, add);
    for i := 0 to |addWalk|
      invariant Run(start, cmds[..i]) == Outcome(dest.files, None)
    {
      var rel := addWalk[i];
      var path := Join(addDir, rel);
      var relapath := RelPathAsWritten(addDir, path);
      CopyStep(addDir, add, addWalk, i);
      assert cmds[i] == Copy(rel, add[rel]);
      RunStep(start, cmds, i);
      if Blocked(dest.files, relapath) {
        RunErrorSticks(start, cmds, i + 1);
        return Some(NotADirectory(relapath));
      }
      var target := if IsDirectory(dest.files, relapath) then Join(relapath, Basename(path)) else relapath;
      if IsDirectory(dest.files, target) {
        RunErrorSticks(start, cmds, i + 1);
        return Some(NotAFile(target));
      }
      dest.Write(target, add[rel]);
    }
    WholePrefix(cmds);
    err := None;
  }

  /** The path `CopyAdded` copies the `i`-th walked file to is its path in
      the package, and the name `shutil.copy2` gives it is its own. */
  lemma CopyStep(addDir: string, add: Tree, addWalk: seq<string>, i: nat)
    requires addDir != [] && addDir[|addDir| - 1] != '/'
    requires forall rel :: rel in addWalk ==> rel in add && Relative(rel)
    requires i < |addWalk|
    ensures addWalk[i] in add
    ensures RelPathAsWritten(addDir, Join(addDir, addWalk[i])) == addWalk[i]
    ensures Basename(Join(addDir, addWalk[i])) == Basename(addWalk[i])
  {
    assert addWalk[i] in addWalk;
    RelPathAsWrittenWithoutTrailingSlash(addDir, addWalk[i]);
    BasenameOfJoin(addDir, addWalk[i]);
  }

  /** One more command: the run so far, then that command unless the run
      already failed. */
  lemma RunStep(files: Tree, cmds: seq<Command>, i: nat)
    requires i < |cmds|
    ensures Run(files, cmds[..i + 1])
         == var o := Run(files, cmds[..i]);
            if o.error.Some? then o else Step(o.files, cmds[i])
  {
    assert cmds[..i + 1][..i] == cmds[..i];
    assert cmds[..i + 1][i] == cmds[i];
  }

  /** After the first failing command, later commands change nothing: the
      run stops with the files as they were when it failed. */
  lemma {:induction false} RunErrorSticks(files: Tree, cmds: seq<Command>, i: nat)
    requires i <= |cmds| && Run(files, cmds[..i]).error.Some?
    ensures Run(files, cmds) == Run(files, cmds[..i])
    decreases |cmds|
  {
    if i < |cmds| {
      var init := cmds[..|cmds| - 1];
      assert init[..i] == cmds[..i];
      RunErrorSticks(files, init, i);
    } else {
      assert cmds[..i] == cmds;
    }
  }

  // ---------------------------------------------------------------------
  // The manifests read back

  /** A path that survives a trip through a manifest line: not empty, no
      line terminator, no whitespace at either end, no " -> " inside. */
  predicate ManifestPath(p: string) {
    p != [] && NoBreak(p) && !IsSpace(p[0]) && !IsSpace(p[|p| - 1]) && Lacks(p, " -> ")
  }

  /** `p` ends with " ->", so that " -> " also occurs where `p` meets the
      separator written after it. */
  predicate EndsWithArrow(p: string) {
    |p| >= 3 && p[|p| - 3..] == " ->"
  }

  /** A line `a -> b` with no whitespace at its ends reads back as `(a, b)`
      when the first " -> " in it is the one after `a` and `b` has none. */
  lemma ParseJoinedRenameLine(a: string, b: string)
    requires Trimmed(a + " -> " + b) && Lacks(b, " -> ")
    requires forall j :: 0 <= j < |a| ==> !OccursAt(a + " -> " + b, " -> ", j)
    ensures ParseRenameLine(a + " -> " + b + "\n") == Ok((a, b))
  {
    StripLine(a + " -> " + b);
    SplitAt(a, " -> ", b, -1);
    SplitWhole(b, " -> ", -1);
  }

  /** The separator written after a manifest path not ending with " ->"
      does not occur in the line before it. */
  lemma NoSeparatorInOld(o: string, n: string, j: nat)
    requires ManifestPath(o) && !EndsWithArrow(o) && j < |o|
    ensures !OccursAt(o + " -> " + n, " -> ", j)
  {
    var sep := " -> ";
    var line := o + sep + n;
    if j + 4 <= |o| {
      assert line[j..j + 4] == o[j..j + 4];
      assert !OccursAt(o, sep, j);
    } else if j == |o| - 3 {
      assert line[j..j + 3] == o[j..];
      assert line[j..j + 4][..3] == line[j..j + 3];
      assert sep[..3] == " ->";
    } else if j == |o| - 2 {
      assert line[j + 2] == ' ';
      assert j + 4 > |line| || line[j..j + 4][2] == line[j + 2];
    } else {
      assert line[j + 1] == ' ';
      assert j + 4 > |line| || line[j..j + 4][1] == line[j + 1];
    }
  }

  /** A written `.rename` line reads back as the pair written, provided both
      paths are manifest paths and the old one does not end with " ->". */
  lemma RenameLineRoundTrip(o: string, n: string)
    requires ManifestPath(o) && ManifestPath(n) && !EndsWithArrow(o)
    ensures ParseRenameLine(RenameLine(o, n) + "\n") == Ok((o, n))
  {
    var line := o + " -> " + n;
    assert line[0] == o[0] && line[|line| - 1] == n[|n| - 1];
    forall j | 0 <= j < |o| ensures !OccursAt(line, " -> ", j) {
      NoSeparatorInOld(o, n, j);
    }
    ParseJoinedRenameLine(o, n);
  }

  /** Without the last condition the trip fails: "x ->" renamed to "y" is
      written as "x -> -> y", which reads back as "x" renamed to "-> y". */
  lemma RenameLineAmbiguous()
    ensures ManifestPath("x ->") && ManifestPath("y") && EndsWithArrow("x ->")
    ensures ParseRenameLine(RenameLine("x ->", "y") + "\n") == Ok(("x", "-> y"))
  {
    ArrowEndedPath();
    ArrowEndedLine();
  }

  lemma ArrowEndedPath()
    ensures ManifestPath("x ->") && EndsWithArrow("x ->")
  {
    assert Lacks("x ->", " -> ") by {
      assert "x ->"[0..4][0] == 'x';
    }
    assert "x ->"[1..] == " ->";
  }

  lemma ArrowEndedLine()
    ensures ParseRenameLine(RenameLine("x ->", "y") + "\n") == Ok(("x", "-> y"))
  {
    var sep := " -> ";
    var line := "x" + sep + "-> y";
    assert RenameLine("x ->", "y") == line;
    assert !OccursAt(line, sep, 0) by {
      assert line[0..4][0] == 'x';
    }
    assert Lacks("-> y", sep) by {
      assert "-> y"[0..4][0] == '-';
    }
    assert Trimmed(line);
    ParseJoinedRenameLine("x", "-> y");
  }

  /** The renames `diff` writes as a `.rename` manifest are read back in
      order, one pair per line. */
  lemma RenameManifestRoundTrip(rs: seq<(string, string)>)
    requires forall i :: 0 <= i < |rs| ==> ManifestPath(rs[i].0) && ManifestPath(rs[i].1) && !EndsWithArrow(rs[i].0)
    ensures var cmds := RenameCommands(Lines(RenameLines(rs)));
            |cmds| == |rs| && forall i :: 0 <= i < |rs| ==> cmds[i] == Rename(Ok(rs[i]))
  {
    var ls := RenameLines(rs);
    forall i | 0 <= i < |ls| ensures NoBreak(ls[i]) {
      RenameLineNoBreak(rs[i].0, rs[i].1);
    }
    ReadLinesOfLines(ls);
    forall i | 0 <= i < |rs| ensures ParseRenameLine(Terminated(ls)[i]) == Ok(rs[i]) {
      RenameLineRoundTrip(rs[i].0, rs[i].1);
    }
  }

  lemma RenameLineNoBreak(o: string, n: string)
    requires NoBreak(o) && NoBreak(n)
    ensures NoBreak(RenameLine(o, n))
  {
    var line := RenameLine(o, n);
    forall j | 0 <= j < |line| ensures !IsBreak(line[j]) {
      if j < |o| {
        assert line[j] == o[j];
      } else if j >= |o| + 4 {
        assert line[j] == n[j - |o| - 4];
      }
    }
  }

  /** The paths `diff` writes as a `.delete` manifest are read back, once
      stripped, in order. */
  lemma DeleteManifestRoundTrip(paths: seq<string>)
    requires forall i :: 0 <= i < |paths| ==> NoBreak(paths[i]) && Trimmed(paths[i])
    ensures var cmds := DeleteCommands(Lines(paths));
            |cmds| == |paths| && forall i :: 0 <= i < |paths| ==> cmds[i] == Delete(paths[i])
  {
    ReadLinesOfLines(paths);
    forall i | 0 <= i < |paths| ensures Strip(Terminated(paths)[i]) == paths[i] {
      StripLine(paths[i]);
    }
  }

  // ---------------------------------------------------------------------
  // What each step does

  /** The names a run of delete commands deletes. */
  function DeletedNames(cmds: seq<Command>): set<string>
  {
    set k | 0 <= k < |cmds| && cmds[k].Delete? :: cmds[k].name
  }

  /** When no command names the destination itself or a directory, a run
      of deletes removes exactly the files named, skipping names that do
      not exist, and does not fail. */
  lemma {:induction false} DeletesRemove(files: Tree, cmds: seq<Command>)
    requires forall k :: 0 <= k < |cmds| ==> cmds[k].Delete? && cmds[k].name != []
    requires forall k, f :: 0 <= k < |cmds| && f in files ==> !Below(f, cmds[k].name)
    ensures Run(files, cmds) == Outcome(files - DeletedNames(cmds), None)
    decreases |cmds|
  {
    if cmds != [] {
      var init := cmds[..|cmds| - 1];
      var name := cmds[|cmds| - 1].name;
      DeletesRemove(files, init);
      assert DeletedNames(cmds) == DeletedNames(init) + {name} by {
        assert cmds == init + [cmds[|cmds| - 1]];
      }
      var rest := files - DeletedNames(init);
      if name in rest {
        assert rest - {name} == files - DeletedNames(cmds);
      } else {
        assert !IsDirectory(rest, name) by {
          assert name != [] && forall f :: f in rest ==> !Below(f, name);
        }
        assert rest == files - DeletedNames(cmds);
      }
    }
  }

  /** A well-formed rename line moves the source's content to the target
      and removes the source. */
  lemma RenameLineMoves(files: Tree, o: string, n: string)
    requires ManifestPath(o) && ManifestPath(n) && !EndsWithArrow(o)
    requires o in files && !IsDirectory(files, n) && !Blocked(files, n)
    ensures Step(files, Rename(ParseRenameLine(RenameLine(o, n) + "\n"))) == Outcome((files - {o})[n := files[o]], None)
  {
    RenameLineRoundTrip(o, n);
  }

  /** A rename of a directory moves every file in it: "d" renamed to "e"
      turns the file "d/x" into "e/x". */
  lemma RenameDirectoryMoves(c: seq<byte>)
    ensures Step(map["d/x" := c], Rename(Ok(("d", "e")))) == Outcome(map["e/x" := c], None)
  {
    var files := map["d/x" := c];
    assert IsDirectory(files, "d") by {
      assert Below("d/x", "d");
    }
    assert !Blocked(files, "e") && !IsDirectory(files, "e") by {
      forall k | k in files ensures !Below("e", k) && !Below(k, "e") {
        assert k[..1] == "d";
      }
    }
    assert Step(files, Rename(Ok(("d", "e")))) == Outcome(MoveDir(files, "d", "e"), None);
    MovedExample(c);
  }

  lemma MovedExample(c: seq<byte>)
    ensures MoveDir(map["d/x" := c], "d", "e") == map["e/x" := c]
  {
    var files := map["d/x" := c];
    var r := MoveDir(files, "d", "e");
    MoveDirMoves(files, "d", "e");
    assert Below("d/x", "d") && "e" + "d/x"[1..] == "e/x";
    forall p | p in r ensures p == "e/x" {
      assert Below(p, "e") && "d" + p[1..] in files;
      assert p == p[..1] + p[1..];
    }
  }

  /** A rename whose source does not exist ends the run there: the files
      stay as the earlier commands left them, and no later command runs. */
  lemma RenameMissingSourceAborts(files: Tree, cmds: seq<Command>, i: nat, f: Tree, src: string, dst: string)
    requires i < |cmds| && Run(files, cmds[..i]) == Outcome(f, None)
    requires cmds[i] == Rename(Ok((src, dst))) && src !in f && !IsDirectory(f, src)
    ensures Run(files, cmds) == Outcome(f, Some(if Blocked(f, dst) then NotADirectory(dst) else NoSuchFile(src)))
  {
    RunStep(files, cmds, i);
    RunErrorSticks(files, cmds, i + 1);
  }

  /** A file copied onto a directory lands inside it, under its own name:
      "x" copied where the directory "x" holds "x/y" becomes "x/x". */
  lemma CopyIntoDirectory(c: seq<byte>, d: seq<byte>)
    ensures CopyOne(map["x/y" := c], "x", d) == Outcome(map["x/y" := c, "x/x" := d], None)
  {
    var files := map["x/y" := c];
    assert IsDirectory(files, "x") by {
      assert Below("x/y", "x");
    }
    assert !Blocked(files, "x") by {
      forall k | k in files ensures !Below("x", k) {
      }
    }
    assert Basename("x") == "x" by {
      assert Basename("x"[..0]) == [];
    }
    assert CopyTarget(files, "x") == "x/x";
    assert !IsDirectory(files, "x/x") by {
      forall k | k in files ensures !Below(k, "x/x") {
      }
    }
  }

  /** No path of `files` or `add` lies inside a file of `add`, nor a file of
      `add` inside a path of `files` or `add`, and no file of `add` is the
      empty name: each copy then lands at its own path. */
  ghost predicate CopiesFit(files: Tree, add: Tree) {
    forall rel, k :: rel in add && (k in files || k in add) ==> rel != [] && !Below(rel, k) && !Below(k, rel)
  }

  /** The files of `add` whose paths are among `ks`. */
  function Restricted(add: Tree, ks: seq<string>): Tree
  {
    map k | k in ks && k in add :: add[k]
  }

  /** When the copies fit, the copy step puts every walked file of `add`
      at its own path, replacing what was there, and does not fail. */
  lemma {:induction false} CopiesOverwrite(files: Tree, add: Tree, addWalk: seq<string>)
    requires forall rel :: rel in addWalk ==> rel in add
    requires CopiesFit(files, add)
    ensures Run(files, CopyCommands(addWalk, add)) == Outcome(files + Restricted(add, addWalk), None)
    decreases |addWalk|
  {
    if addWalk == [] {
      assert Restricted(add, addWalk) == map[];
    } else {
      var n := |addWalk| - 1;
      var init := addWalk[..n];
      var rel := addWalk[n];
      CopyCommandsPrefix(addWalk, add);
      CopiesOverwrite(files, add, init);
      var cur := files + Restricted(add, init);
      assert rel in addWalk;
      CopyLands(cur, rel, add[rel]);
      UpdateUnion(files, Restricted(add, init), rel, add[rel]);
      RestrictedSnoc(add, addWalk, n);
      assert addWalk[..n + 1] == addWalk;
    }
  }

  lemma CopyCommandsPrefix(addWalk: seq<string>, add: Tree)
    requires addWalk != [] && forall rel :: rel in addWalk ==> rel in add
    ensures CopyCommands(addWalk, add)[..|addWalk| - 1] == CopyCommands(addWalk[..|addWalk| - 1], add)
  {
  }

  /** A copy to a path that is neither inside a file nor a directory lands
      at that path. */
  lemma CopyLands(files: Tree, rel: string, content: seq<byte>)
    requires rel != [] && forall k :: k in files ==> !Below(rel, k) && !Below(k, rel)
    ensures CopyOne(files, rel, content) == Outcome(files[rel := content], None)
  {
  }

  lemma UpdateUnion(a: Tree, b: Tree, k: string, v: seq<byte>)
    ensures (a + b)[k := v] == a + b[k := v]
  {
  }

  lemma RestrictedSnoc(add: Tree, ks: seq<string>, i: nat)
    requires i < |ks| && ks[i] in add
    ensures Restricted(add, ks[..i + 1]) == Restricted(add, ks[..i])[ks[i] := add[ks[i]]]
  {
    assert ks[..i + 1] == ks[..i] + [ks[i]];
  }

  /** `ks` lists exactly the files of `t`. */
  ghost predicate WalkOf(ks: seq<string>, t: Tree) {
    forall k :: k in ks <==> k in t
  }

  /** When the delete and rename steps leave `f` and the copies fit, the
      files of `.add` overwrite `f`: every one of them is there, with the
      package's content, and every other file of `f` is kept. */
  lemma PatchedCopiesAdd(files: Tree, pkg: Package, addWalk: seq<string>, delete: bool, f: Tree)
    requires WalkOf(addWalk, pkg.add)
    requires var afterDelete := Run(files, if delete then DeleteCommands(pkg.deleteManifest) else []);
             afterDelete.error.None?
             && Run(afterDelete.files, RenameCommands(pkg.renameManifest)) == Outcome(f, None)
    requires CopiesFit(f, pkg.add)
    ensures Patched(files, pkg, addWalk, delete) == Outcome(f + pkg.add, None)
  {
    CopiesOverwrite(f, pkg.add, addWalk);
    assert Restricted(pkg.add, addWalk) == pkg.add;
  }

  /** The command may change what is at `p`: `p` is the name deleted, the
      old or new path of a rename or a path inside either, or a place the
      copy may land. */
  predicate Touches(c: Command, p: string) {
    match c
    case Delete(name) => name == p
    case Rename(r) => r.Ok? && (r.value.0 == p || r.value.1 == p || Below(p, r.value.0) || Below(p, r.value.1))
    case Copy(rel, _) => p == rel || p == Join(rel, Basename(rel))
  }

  /** No command touches `p`. */
  predicate Untouched(cmds: seq<Command>, p: string) {
    forall k :: 0 <= k < |cmds| ==> !Touches(cmds[k], p)
  }

  /** A run leaves alone every path that none of its commands touches. */
  lemma {:induction false} RunLeaves(files: Tree, cmds: seq<Command>, p: string)
    requires Untouched(cmds, p)
    ensures var r := Run(files, cmds);
            (p in r.files <==> p in files) && (p in files ==> r.files[p] == files[p])
    decreases |cmds|
  {
    if cmds != [] {
      var init := cmds[..|cmds| - 1];
      assert Untouched(init, p) by {
        forall k | 0 <= k < |init| ensures !Touches(init[k], p) {
          assert init[k] == cmds[k];
        }
      }
      RunLeaves(files, init, p);
      StepLeaves(Run(files, init).files, cmds[|cmds| - 1], p);
    }
  }

  /** One command leaves alone every path it does not touch. */
  lemma StepLeaves(files: Tree, c: Command, p: string)
    requires !Touches(c, p)
    ensures var r := Step(files, c);
            (p in r.files <==> p in files) && (p in files ==> r.files[p] == files[p])
  {
    match c
    case Delete(_) =>
    case Rename(Err(_)) =>
    case Rename(Ok((src, dst))) =>
      RenameLeaves(files, src, dst, p);
    case Copy(rel, content) =>
      CopyLeaves(files, rel, content, p);
  }

  lemma RenameLeaves(files: Tree, src: string, dst: string, p: string)
    requires p != src && p != dst && !Below(p, src) && !Below(p, dst)
    ensures var r := RenameOne(files, src, dst);
            (p in r.files <==> p in files) && (p in files ==> r.files[p] == files[p])
  {
    var r := RenameOne(files, src, dst);
    if r.error.None? && src !in files {
      assert r.files == MoveDir(files, src, dst);
      MoveDirMoves(files, src, dst);
    }
  }

  lemma CopyLeaves(files: Tree, rel: string, content: seq<byte>, p: string)
    requires p != rel && p != Join(rel, Basename(rel))
    ensures var r := CopyOne(files, rel, content);
            (p in r.files <==> p in files) && (p in files ==> r.files[p] == files[p])
  {
    var target := CopyTarget(files, rel);
    assert p != target;
    var r := CopyOne(files, rel, content);
    assert r.files == files || r.files == files[target := content];
  }

  /** `patch` leaves alone every path the package does not name: not a
      delete (when deletes are on), not the old or new path of a rename nor
      a path inside either, and not a place a file of `.add` may land. */
  lemma PatchLeavesUnnamedPaths(files: Tree, pkg: Package, addWalk: seq<string>, delete: bool, p: string)
    requires forall rel :: rel in addWalk ==> rel in pkg.add
    requires delete ==> Untouched(DeleteCommands(pkg.deleteManifest), p)
    requires Untouched(RenameCommands(pkg.renameManifest), p)
    requires forall rel :: rel in pkg.add ==> p != rel && p != Join(rel, Basename(rel))
    ensures var r := Patched(files, pkg, addWalk, delete);
            (p in r.files <==> p in files) && (p in files ==> r.files[p] == files[p])
  {
    var copies := CopyCommands(addWalk, pkg.add);
    CopiesUntouched(addWalk, pkg.add, p);
    AppliedLeaves(files, if delete then DeleteCommands(pkg.deleteManifest) else [], RenameCommands(pkg.renameManifest), copies, p);
  }

  lemma CopiesUntouched(addWalk: seq<string>, add: Tree, p: string)
    requires forall rel :: rel in addWalk ==> rel in add
    requires forall rel :: rel in add ==> p != rel && p != Join(rel, Basename(rel))
    ensures Untouched(CopyCommands(addWalk, add), p)
  {
    var copies := CopyCommands(addWalk, add);
    forall k | 0 <= k < |copies| ensures !Touches(copies[k], p) {
      assert addWalk[k] in addWalk;
    }
  }

  lemma AppliedLeaves(files: Tree, deletes: seq<Command>, renames: seq<Command>, copies: seq<Command>, p: string)
    requires Untouched(deletes, p) && Untouched(renames, p) && Untouched(copies, p)
    ensures var r := Applied(files, deletes, renames, copies);
            (p in r.files <==> p in files) && (p in files ==> r.files[p] == files[p])
  {
    RunLeaves(files, deletes, p);
    var afterDelete := Run(files, deletes).files;
    RunLeaves(afterDelete, renames, p);
    RunLeaves(Run(afterDelete, renames).files, copies, p);
  }

  /** Without the delete flag the `.delete` manifest is not read: `patch`
      does what it does with deletes on and an empty manifest. */
  lemma PatchWithoutDeleteFlag(files: Tree, pkg: Package, addWalk: seq<string>)
    requires forall rel :: rel in addWalk ==> rel in pkg.add
    ensures Patched(files, pkg, addWalk, false) == Patched(files, pkg.(deleteManifest := []), addWalk, true)
  {
    assert ReadLines([]) == [];
  }
}
