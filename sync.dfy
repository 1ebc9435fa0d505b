/** The purpose of the tool, proved: freezing a tree, changing a copy of it,
    diffing the copy against the frozen state, packaging the diff and
    patching the original tree with it reproduces the copy exactly, as long
    as equal fingerprints mean equal content, no path is excluded, every
    path survives the text formats, and no file of one tree is a directory
    of the other. */
module Sync {
  import opened Results
  import opened Text
  import opened PyDict
  import opened Paths
  import opened Hashing
  import opened Snapshot
  import opened DiffEngine
  import opened DiffPackage
  import opened Patcher

  /** The fingerprint of every file of a tree. */
  function Fingerprints(tree: Tree, maxHashSize: int, digest: seq<byte> -> string): map<string, string>
  {
    map p | p in tree :: Fingerprint(tree[p], maxHashSize, digest)
  }

  /** No file of either tree lies inside a directory named like a file of
      either tree. */
  ghost predicate Separate(a: Tree, b: Tree) {
    forall p, q :: (p in a || p in b) && (q in a || q in b) ==> !Below(p, q)
  }

  /** A path that the state file, both manifests and the rename line all
      carry unchanged. */
  predicate SyncablePath(p: string) {
    SafePath(p) && ManifestPath(p) && !EndsWithArrow(p)
  }

  /** The commands of a rename manifest that reads back as `rs`. */
  function RenameCmds(rs: seq<(string, string)>): (r: seq<Command>)
    ensures |r| == |rs|
  {
    seq(|rs|, k requires 0 <= k < |rs| => Rename(Ok(rs[k])))
  }

  ghost predicate IsSource(rs: seq<(string, string)>, k: string) {
    exists i :: 0 <= i < |rs| && rs[i].0 == k
  }

  ghost predicate IsTarget(rs: seq<(string, string)>, k: string) {
    exists i :: 0 <= i < |rs| && rs[i].1 == k
  }

  /** `after` is `files` with the renames `rs` carried out: the sources are
      gone, the targets are there, each target holds the content of some
      source renamed to it, and every other file is unchanged. */
  ghost predicate Moved(files: Tree, rs: seq<(string, string)>, after: Tree) {
    MovedKeys(files, rs, after) && MovedValues(files, rs, after)
  }

  ghost predicate MovedKeys(files: Tree, rs: seq<(string, string)>, after: Tree) {
    forall k :: k in after <==> (k in files && !IsSource(rs, k)) || IsTarget(rs, k)
  }

  ghost predicate MovedValues(files: Tree, rs: seq<(string, string)>, after: Tree) {
    forall k :: k in after ==>
      (exists i :: 0 <= i < |rs| && rs[i].1 == k && rs[i].0 in files && after[k] == files[rs[i].0])
      || (k in files && after[k] == files[k])
  }

  /** The conditions under which a run of renames cannot fail. */
  ghost predicate RenamesApply(files: Tree, rs: seq<(string, string)>) {
    SourcesDistinct(rs)
    && (forall i :: 0 <= i < |rs| ==> rs[i].0 in files && rs[i].1 != [])
    && (forall i, j :: 0 <= i < |rs| && 0 <= j < |rs| ==> rs[i].0 != rs[j].1)
    && (forall i, f :: 0 <= i < |rs| && f in files ==> !Below(f, rs[i].1) && !Below(rs[i].1, f))
    && (forall i, j :: 0 <= i < |rs| && 0 <= j < |rs| ==> !Below(rs[j].1, rs[i].1))
  }

  lemma RenamesApplyPrefix(files: Tree, rs: seq<(string, string)>)
    requires rs != [] && RenamesApply(files, rs)
    ensures RenamesApply(files, rs[..|rs| - 1])
  {
  }

  lemma SourcesTargetsSnoc(rs: seq<(string, string)>)
    requires rs != []
    ensures forall k :: IsSource(rs, k) <==> IsSource(rs[..|rs| - 1], k) || k == rs[|rs| - 1].0
    ensures forall k :: IsTarget(rs, k) <==> IsTarget(rs[..|rs| - 1], k) || k == rs[|rs| - 1].1
  {
    var init := rs[..|rs| - 1];
    forall k | IsSource(rs, k) ensures IsSource(init, k) || k == rs[|rs| - 1].0 {
      var i :| 0 <= i < |rs| && rs[i].0 == k;
      if i < |init| {
        assert init[i] == rs[i];
      }
    }
    forall k | IsTarget(rs, k) ensures IsTarget(init, k) || k == rs[|rs| - 1].1 {
      var i :| 0 <= i < |rs| && rs[i].1 == k;
      if i < |init| {
        assert init[i] == rs[i];
      }
    }
    forall k | IsSource(init, k) ensures IsSource(rs, k) {
      var i :| 0 <= i < |init| && init[i].0 == k;
      assert rs[i] == init[i];
    }
    forall k | IsTarget(init, k) ensures IsTarget(rs, k) {
      var i :| 0 <= i < |init| && init[i].1 == k;
      assert rs[i] == init[i];
    }
  }

  /** Renames of files with distinct sources, none of them a target, onto
      targets that are neither directories nor inside a file, all succeed,
      and move the files. */
  lemma {:induction false} RunRenames(files: Tree, rs: seq<(string, string)>)
    requires RenamesApply(files, rs)
    ensures Run(files, RenameCmds(rs)).error.None?
    ensures Moved(files, rs, Run(files, RenameCmds(rs)).files)
    decreases |rs|
  {
    if rs == [] {
      assert RenameCmds(rs) == [];
    } else {
      var init := rs[..|rs| - 1];
      RenamesApplyPrefix(files, rs);
      RunRenames(files, init);
      RunRenamesSnoc(files, rs);
      RenameStepMoves(files, rs, Run(files, RenameCmds(init)).files);
    }
  }

  /** Running the commands of `rs` is running those of all but its last
      pair, then the last rename. */
  lemma RunRenamesSnoc(files: Tree, rs: seq<(string, string)>)
    requires rs != []
    requires Run(files, RenameCmds(rs[..|rs| - 1])).error.None?
    ensures Run(files, RenameCmds(rs))
            == Step(Run(files, RenameCmds(rs[..|rs| - 1])).files, Rename(Ok(rs[|rs| - 1])))
  {
    assert RenameCmds(rs)[..|rs| - 1] == RenameCmds(rs[..|rs| - 1]);
  }

  /** The last rename of `rs`, applied after the others, completes the
      move. */
  lemma RenameStepMoves(files: Tree, rs: seq<(string, string)>, cur: Tree)
    requires rs != [] && RenamesApply(files, rs)
    requires Moved(files, rs[..|rs| - 1], cur)
    ensures Step(cur, Rename(Ok(rs[|rs| - 1]))).error.None?
    ensures Moved(files, rs, Step(cur, Rename(Ok(rs[|rs| - 1]))).files)
  {
    var (o, t) := rs[|rs| - 1];
    LastRenameApplies(files, rs, cur);
    var next := (cur - {o})[t := cur[o]];
    assert Step(cur, Rename(Ok(rs[|rs| - 1]))) == Outcome(next, None);
    LastRenameKeys(files, rs, cur);
    LastRenameValues(files, rs, cur);
  }

  /** The source of the last rename is still there, unchanged, and its
      target is neither a directory nor inside a file. */
  lemma LastRenameApplies(files: Tree, rs: seq<(string, string)>, cur: Tree)
    requires rs != [] && RenamesApply(files, rs)
    requires Moved(files, rs[..|rs| - 1], cur)
    ensures rs[|rs| - 1].0 in cur && cur[rs[|rs| - 1].0] == files[rs[|rs| - 1].0]
    ensures !IsDirectory(cur, rs[|rs| - 1].1) && !Blocked(cur, rs[|rs| - 1].1) && rs[|rs| - 1].0 != rs[|rs| - 1].1
  {
    var n := |rs| - 1;
    var init := rs[..n];
    var (o, t) := rs[n];
    assert !IsSource(init, o) by {
      forall i | 0 <= i < |init| ensures init[i].0 != o {
        assert init[i] == rs[i];
      }
    }
    assert !IsTarget(init, o) by {
      forall i | 0 <= i < |init| ensures init[i].1 != o {
        assert init[i] == rs[i];
      }
    }
    forall k | k in cur ensures !Below(k, t) && !Below(t, k) {
      if k !in files {
        var i :| 0 <= i < |init| && init[i].1 == k;
        assert init[i] == rs[i];
      }
    }
  }

  lemma LastRenameKeys(files: Tree, rs: seq<(string, string)>, cur: Tree)
    requires rs != [] && RenamesApply(files, rs)
    requires Moved(files, rs[..|rs| - 1], cur)
    requires rs[|rs| - 1].0 in cur
    ensures MovedKeys(files, rs, (cur - {rs[|rs| - 1].0})[rs[|rs| - 1].1 := cur[rs[|rs| - 1].0]])
  {
    var (o, t) := rs[|rs| - 1];
    SourcesTargetsSnoc(rs);
    var init := rs[..|rs| - 1];
    assert !IsTarget(init, o) by {
      forall i | 0 <= i < |init| ensures init[i].1 != o {
        assert init[i] == rs[i];
      }
    }
  }

  lemma LastRenameValues(files: Tree, rs: seq<(string, string)>, cur: Tree)
    requires rs != [] && RenamesApply(files, rs)
    requires Moved(files, rs[..|rs| - 1], cur)
    requires rs[|rs| - 1].0 in cur && cur[rs[|rs| - 1].0] == files[rs[|rs| - 1].0]
    ensures MovedValues(files, rs, (cur - {rs[|rs| - 1].0})[rs[|rs| - 1].1 := cur[rs[|rs| - 1].0]])
  {
    var n := |rs| - 1;
    var init := rs[..n];
    var (o, t) := rs[n];
    var next := (cur - {o})[t := cur[o]];
    forall k | k in next
      ensures (exists i :: 0 <= i < |rs| && rs[i].1 == k && rs[i].0 in files && next[k] == files[rs[i].0])
              || (k in files && next[k] == files[k])
    {
      if k == t {
        assert rs[n].1 == k && rs[n].0 in files && next[k] == files[rs[n].0];
      } else {
        assert k in cur && next[k] == cur[k];
        if !(k in files && cur[k] == files[k]) {
          var i :| 0 <= i < |init| && init[i].1 == k && init[i].0 in files && cur[k] == files[init[i].0];
          assert rs[i] == init[i];
        }
      }
    }
  }

  /** What a diff between two fingerprint maps guarantees when nothing is
      excluded: the adds are exactly the paths new or changed, every
      deleted or renamed path is gone, every rename lands on a path with
      the same fingerprint, every path gone is deleted or renamed (not
      both), and no path is renamed twice. */
  ghost predicate Accounts(fo: map<string, string>, fn: map<string, string>, d: Diff) {
    (forall p :: p in d.add <==> p in fn && (p !in fo || fo[p] != fn[p]))
    && (forall p :: p in d.delete ==> p in fo && p !in fn)
    && (forall i :: 0 <= i < |d.rename| ==>
          d.rename[i].0 in fo && d.rename[i].0 !in fn && d.rename[i].1 in fn
          && fn[d.rename[i].1] == fo[d.rename[i].0] && d.rename[i].0 !in d.delete)
    && (forall p :: p in fo && p !in fn ==> p in d.delete || IsSource(d.rename, p))
    && SourcesDistinct(d.rename)
  }

  /** `generate_diff` with nothing excluded accounts for every change. */
  lemma DiffAccounts(origin: Dict, now: Dict, excluded: string -> bool)
    requires origin.Valid() && now.Valid()
    requires forall p :: !excluded(p)
    ensures Accounts(origin.entries, now.entries, DiffOf(origin, now, excluded))
  {
    var d := DiffOf(origin, now, excluded);
    DiffListsDisjoint(origin, now, excluded);
    DiffListsDistinct(origin, now, excluded);
    forall p ensures p in d.add <==> p in now.entries && (p !in origin.entries || origin.entries[p] != now.entries[p]) {
      AddMembers(origin, now, excluded, p);
    }
    forall p | p in d.delete ensures p in origin.entries && p !in now.entries {
      DeleteMembers(origin, now, excluded, p);
    }
    forall i | 0 <= i < |d.rename|
      ensures d.rename[i].0 in origin.entries && d.rename[i].0 !in now.entries && d.rename[i].1 in now.entries
              && now.entries[d.rename[i].1] == origin.entries[d.rename[i].0] && d.rename[i].0 !in d.delete
    {
      assert d.rename[i] in d.rename;
      RenameMembers(origin, now, excluded, d.rename[i].0, d.rename[i].1);
    }
    forall p | p in origin.entries && p !in now.entries ensures p in d.delete || IsSource(d.rename, p) {
      DeleteMembers(origin, now, excluded, p);
      if p !in d.delete {
        RenameFor(origin, now, excluded, p);
      }
    }
  }

  /** An origin path, not excluded, gone now but whose checksum remains, is
      the source of a rename. */
  lemma RenameFor(origin: Dict, now: Dict, excluded: string -> bool, k: string)
    requires origin.Valid() && now.Valid()
    requires k in origin.entries && !excluded(k) && k !in now.entries && origin.entries[k] in now.entries.Values
    ensures IsSource(DiffOf(origin, now, excluded).rename, k)
  {
    var n := Inverse(now)[origin.entries[k]];
    RenameMembers(origin, now, excluded, k, n);
    var rs := DiffOf(origin, now, excluded).rename;
    var i :| 0 <= i < |rs| && rs[i] == (k, n);
  }

  /** The preconditions the trees must meet. */
  ghost predicate Syncable(O: Tree, N: Tree, maxHashSize: int, digest: seq<byte> -> string) {
    (forall p :: p in O ==> SyncablePath(p))
    && (forall p :: p in N ==> SyncablePath(p))
    && Separate(O, N)
    && (forall p, q :: p in O && q in N && Fingerprint(O[p], maxHashSize, digest) == Fingerprint(N[q], maxHashSize, digest)
          ==> O[p] == N[q])
  }

  /** A diff that accounts for every change between two trees, packaged
      against the tree now and patched onto the origin tree, turns it into
      the tree now. */
  lemma PatchConverges(O: Tree, N: Tree, d: Diff, maxHashSize: int, digest: seq<byte> -> string)
    requires Syncable(O, N, maxHashSize, digest)
    requires Accounts(Fingerprints(O, maxHashSize, digest), Fingerprints(N, maxHashSize, digest), d)
    ensures var pkg := MakePackage(d, N);
            pkg.Ok? && forall addWalk :: WalkOf(addWalk, pkg.value.add) ==> Patched(O, pkg.value, addWalk, true) == Outcome(N, None)
  {
    assert forall p :: p in d.add ==> p in N;
    var pkg := MakePackage(d, N).value;
    DeletesClean(O, N, d, maxHashSize, digest);
    var afterDelete := DeletePhase(O, d.delete);
    forall i | 0 <= i < |d.rename| ensures d.rename[i].0 in afterDelete && d.rename[i].0 !in N && d.rename[i].1 in N {
    }
    var afterRename := RenamePhase(O, N, d.rename, afterDelete);
    AddFits(O, N, d, maxHashSize, digest, afterDelete, afterRename, pkg.add);
    AddPhase(O, N, d, maxHashSize, digest, afterDelete, afterRename);
    PatchedInSteps(O, pkg, afterRename, N);
  }

  /** A patch whose delete and rename steps succeed, leaving files that the
      copies fit, ends with those files overwritten by `.add`, whatever the
      order of the walk. */
  lemma PatchedInSteps(O: Tree, pkg: Package, afterRename: Tree, N: Tree)
    requires var afterDelete := Run(O, DeleteCommands(pkg.deleteManifest));
             afterDelete.error.None?
             && Run(afterDelete.files, RenameCommands(pkg.renameManifest)) == Outcome(afterRename, None)
    requires CopiesFit(afterRename, pkg.add) && afterRename + pkg.add == N
    ensures forall addWalk :: WalkOf(addWalk, pkg.add) ==> Patched(O, pkg, addWalk, true) == Outcome(N, None)
  {
    forall addWalk | WalkOf(addWalk, pkg.add) ensures Patched(O, pkg, addWalk, true) == Outcome(N, None) {
      PatchedCopiesAdd(O, pkg, addWalk, true, afterRename);
    }
  }

  /** The deleted paths are fit for the `.delete` manifest, and no file of
      the origin tree lies below one of them. */
  lemma DeletesClean(O: Tree, N: Tree, d: Diff, maxHashSize: int, digest: seq<byte> -> string)
    requires Syncable(O, N, maxHashSize, digest)
    requires Accounts(Fingerprints(O, maxHashSize, digest), Fingerprints(N, maxHashSize, digest), d)
    ensures forall i :: 0 <= i < |d.delete| ==> NoBreak(d.delete[i]) && Trimmed(d.delete[i]) && d.delete[i] != []
    ensures forall i, f :: 0 <= i < |d.delete| && f in O ==> !Below(f, d.delete[i])
  {
    var fo := Fingerprints(O, maxHashSize, digest);
    forall i | 0 <= i < |d.delete| ensures NoBreak(d.delete[i]) && Trimmed(d.delete[i]) && d.delete[i] != [] {
      assert d.delete[i] in fo;
      DeletablePath(d.delete[i]);
    }
    forall i, f | 0 <= i < |d.delete| && f in O ensures !Below(f, d.delete[i]) {
      assert d.delete[i] in fo;
    }
  }

  /** The files added land at their own paths: after the delete and rename
      steps every file is a file of one of the two trees, and the trees are
      separate. */
  lemma AddFits(O: Tree, N: Tree, d: Diff, maxHashSize: int, digest: seq<byte> -> string,
                afterDelete: Tree, afterRename: Tree, add: Tree)
    requires Syncable(O, N, maxHashSize, digest)
    requires Accounts(Fingerprints(O, maxHashSize, digest), Fingerprints(N, maxHashSize, digest), d)
    requires forall k :: k in afterDelete ==> k in O
    requires MovedKeys(afterDelete, d.rename, afterRename)
    requires forall p :: p in add ==> p in N
    ensures CopiesFit(afterRename, add)
  {
    var fn := Fingerprints(N, maxHashSize, digest);
    forall k | k in afterRename ensures k in O || k in N {
      if k !in afterDelete {
        var i :| 0 <= i < |d.rename| && d.rename[i].1 == k;
        assert k in fn;
      }
    }
    forall rel | rel in add ensures rel != [] {
      assert SyncablePath(rel);
    }
  }

  /** The delete step of the sync leaves the origin tree without the
      deleted paths. */
  lemma DeletePhase(O: Tree, deletes: seq<string>) returns (afterDelete: Tree)
    requires forall i :: 0 <= i < |deletes| ==> NoBreak(deletes[i]) && Trimmed(deletes[i]) && deletes[i] != []
    requires forall i, f :: 0 <= i < |deletes| && f in O ==> !Below(f, deletes[i])
    ensures afterDelete == O - (set p | p in deletes)
    ensures Run(O, DeleteCommands(Lines(deletes))) == Outcome(afterDelete, None)
  {
    DeleteManifestRoundTrip(deletes);
    DeletesOf(O, deletes, DeleteCommands(Lines(deletes)));
    afterDelete := O - (set p | p in deletes);
  }

  /** Commands deleting `deletes`, one by one, remove exactly those paths. */
  lemma DeletesOf(O: Tree, deletes: seq<string>, cmds: seq<Command>)
    requires |cmds| == |deletes| && forall i :: 0 <= i < |deletes| ==> cmds[i] == Delete(deletes[i])
    requires forall i :: 0 <= i < |deletes| ==> deletes[i] != []
    requires forall i, f :: 0 <= i < |deletes| && f in O ==> !Below(f, deletes[i])
    ensures Run(O, cmds) == Outcome(O - (set p | p in deletes), None)
  {
    DeletesRemove(O, cmds);
    assert DeletedNames(cmds) == set p | p in deletes;
  }

  /** A path fit for the sync is fit for a `.delete` line. */
  lemma DeletablePath(p: string)
    requires SyncablePath(p)
    ensures NoBreak(p) && Trimmed(p) && p != []
  {
  }

  /** The rename step of the sync moves every renamed file. */
  lemma RenamePhase(O: Tree, N: Tree, rs: seq<(string, string)>, afterDelete: Tree) returns (afterRename: Tree)
    requires forall p :: p in O ==> SyncablePath(p)
    requires forall p :: p in N ==> SyncablePath(p)
    requires Separate(O, N)
    requires SourcesDistinct(rs)
    requires forall k :: k in afterDelete ==> k in O
    requires forall i :: 0 <= i < |rs| ==> rs[i].0 in afterDelete && rs[i].0 !in N && rs[i].1 in N
    ensures Run(afterDelete, RenameCommands(Lines(RenameLines(rs)))) == Outcome(afterRename, None)
    ensures Moved(afterDelete, rs, afterRename)
  {
    RenameManifestRoundTrip(rs);
    assert RenameCommands(Lines(RenameLines(rs))) == RenameCmds(rs);
    RunRenames(afterDelete, rs);
    afterRename := Run(afterDelete, RenameCmds(rs)).files;
  }

  /** After the add step the tree is the tree now: every file of it is
      there, with its content, and nothing else. */
  lemma AddPhase(O: Tree, N: Tree, d: Diff, maxHashSize: int, digest: seq<byte> -> string,
                 afterDelete: Tree, afterRename: Tree)
    requires Syncable(O, N, maxHashSize, digest)
    requires Accounts(Fingerprints(O, maxHashSize, digest), Fingerprints(N, maxHashSize, digest), d)
    requires afterDelete == O - (set p | p in d.delete)
    requires Moved(afterDelete, d.rename, afterRename)
    requires forall p :: p in d.add ==> p in N
    ensures afterRename + (map p | p in d.add :: N[p]) == N
  {
    var add := map p | p in d.add :: N[p];
    var final := afterRename + add;
    forall k | k in N ensures k in final {
      if k !in d.add {
        KeptPath(O, N, d, maxHashSize, digest, afterDelete, afterRename, k);
      }
    }
    forall k | k in final ensures k in N && final[k] == N[k] {
      if k !in add {
        ArrivedPath(O, N, d, maxHashSize, digest, afterDelete, afterRename, k);
      }
    }
    SameTree(final, N);
  }

  lemma SameTree(a: Tree, b: Tree)
    requires forall k :: k in a ==> k in b && a[k] == b[k]
    requires forall k :: k in b ==> k in a
    ensures a == b
  {
  }

  /** A path of the tree now that is not added was in the origin tree
      with the same fingerprint, and survives the delete and rename
      steps. */
  lemma KeptPath(O: Tree, N: Tree, d: Diff, maxHashSize: int, digest: seq<byte> -> string,
                 afterDelete: Tree, afterRename: Tree, k: string)
    requires Accounts(Fingerprints(O, maxHashSize, digest), Fingerprints(N, maxHashSize, digest), d)
    requires afterDelete == O - (set p | p in d.delete)
    requires Moved(afterDelete, d.rename, afterRename)
    requires k in N && k !in d.add
    ensures k in afterRename
  {
    var fo := Fingerprints(O, maxHashSize, digest);
    var fn := Fingerprints(N, maxHashSize, digest);
    assert k in fn;
    assert k in fo;
    assert k !in d.delete;
    assert !IsSource(d.rename, k) by {
      forall i | 0 <= i < |d.rename| ensures d.rename[i].0 != k {
        assert d.rename[i].0 !in fn;
      }
    }
    assert k in afterDelete;
  }

  /** A path present after the rename step and not added is a path of the
      tree now, with the content it has now. */
  lemma ArrivedPath(O: Tree, N: Tree, d: Diff, maxHashSize: int, digest: seq<byte> -> string,
                    afterDelete: Tree, afterRename: Tree, k: string)
    requires Syncable(O, N, maxHashSize, digest)
    requires Accounts(Fingerprints(O, maxHashSize, digest), Fingerprints(N, maxHashSize, digest), d)
    requires afterDelete == O - (set p | p in d.delete)
    requires Moved(afterDelete, d.rename, afterRename)
    requires k in afterRename && k !in d.add
    ensures k in N && afterRename[k] == N[k]
  {
    var fo := Fingerprints(O, maxHashSize, digest);
    var fn := Fingerprints(N, maxHashSize, digest);
    if i :| 0 <= i < |d.rename| && d.rename[i].1 == k && d.rename[i].0 in afterDelete
            && afterRename[k] == afterDelete[d.rename[i].0] {
      var src := d.rename[i].0;
      assert k in fn && fn[k] == fo[src];
      assert Fingerprint(O[src], maxHashSize, digest) == Fingerprint(N[k], maxHashSize, digest);
    } else {
      assert k in afterDelete && afterRename[k] == afterDelete[k];
      assert k in fo;
      forall i | 0 <= i < |d.rename| && d.rename[i].1 == k ensures k in N {
        assert k in fn;
      }
      assert k !in d.delete;
      assert fo[k] == fn[k];
      assert Fingerprint(O[k], maxHashSize, digest) == Fingerprint(N[k], maxHashSize, digest);
    }
  }

  /** The whole round, with the states computed from the trees: the state
      of the origin tree, and the state of the tree now, diffed, packaged
      and patched onto the origin tree, turn it into the tree now. */
  lemma Convergence(O: Tree, N: Tree, origin: Dict, now: Dict, excluded: string -> bool,
                    maxHashSize: int, digest: seq<byte> -> string)
    requires origin.Valid() && now.Valid()
    requires origin.entries == Fingerprints(O, maxHashSize, digest)
    requires now.entries == Fingerprints(N, maxHashSize, digest)
    requires forall p :: !excluded(p)
    requires Syncable(O, N, maxHashSize, digest)
    ensures var pkg := MakePackage(DiffOf(origin, now, excluded), N);
            pkg.Ok? && forall addWalk :: WalkOf(addWalk, pkg.value.add) ==> Patched(O, pkg.value, addWalk, true) == Outcome(N, None)
  {
    DiffAccounts(origin, now, excluded);
    PatchConverges(O, N, DiffOf(origin, now, excluded), maxHashSize, digest);
  }

  /** The whole cycle as the tool runs it, with no excludes: `freeze`
      writes the state file of the origin tree; `diff` loads that file,
      takes the state of the tree now, and packages the difference; `patch`
      with deletes on turns the origin tree into the tree now. Digests are
      assumed free of whitespace, as hex digests are. */
  lemma FreezeDiffPatch(top: string, walkO: seq<string>, O: Tree, walkN: seq<string>, N: Tree,
                        maxHashSize: int, digest: seq<byte> -> string)
    requires forall rel :: rel in walkO <==> rel in O
    requires forall rel :: rel in walkN <==> rel in N
    requires forall rel :: rel in walkO ==> Relative(rel)
    requires forall rel :: rel in walkN ==> Relative(rel)
    requires forall c :: SafeChecksum(digest(c))
    requires Syncable(O, N, maxHashSize, digest)
    ensures var none: string -> bool := _ => false;
            var loaded := ParseState(StateText(StateOf(top, walkO, O, none, maxHashSize, digest)));
            loaded.Ok?
            && var pkg := MakePackage(DiffOf(loaded.value, StateOf(top, walkN, N, none, maxHashSize, digest), none), N);
               pkg.Ok? && forall addWalk :: WalkOf(addWalk, pkg.value.add) ==> Patched(O, pkg.value, addWalk, true) == Outcome(N, None)
  {
    var none: string -> bool := _ => false;
    var frozen := StateOf(top, walkO, O, none, maxHashSize, digest);
    var now := StateOf(top, walkN, N, none, maxHashSize, digest);
    WholeTreeFingerprints(top, walkO, O, none, maxHashSize, digest);
    WholeTreeFingerprints(top, walkN, N, none, maxHashSize, digest);
    FrozenStateLoads(frozen, O, maxHashSize, digest);
    Convergence(O, N, frozen, now, none, maxHashSize, digest);
  }

  lemma WholeTreeFingerprints(top: string, walk: seq<string>, tree: Tree, excluded: string -> bool,
                              maxHashSize: int, digest: seq<byte> -> string)
    requires forall rel :: rel in walk <==> rel in tree
    requires forall rel :: rel in walk ==> Relative(rel)
    requires forall p :: !excluded(p)
    ensures StateOf(top, walk, tree, excluded, maxHashSize, digest).entries == Fingerprints(tree, maxHashSize, digest)
  {
    StateOfWholeTree(top, walk, tree, excluded, maxHashSize, digest);
  }

  /** The state file written for a tree of syncable paths loads back. */
  lemma FrozenStateLoads(frozen: Dict, O: Tree, maxHashSize: int, digest: seq<byte> -> string)
    requires frozen.Valid() && frozen.entries == Fingerprints(O, maxHashSize, digest)
    requires forall p :: p in O ==> SyncablePath(p)
    requires forall c :: SafeChecksum(digest(c))
    ensures ParseState(StateText(frozen)) == Ok(frozen)
  {
    forall p | p in frozen.entries ensures SafePath(p) && SafeChecksum(frozen.entries[p]) {
      assert frozen.entries[p] == digest(HashedPart(O[p], maxHashSize));
    }
    StateTextRoundTrip(frozen);
  }
}
