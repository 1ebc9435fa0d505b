/** The diff package `diff` writes: the `.delete` manifest, one path per
    line; the `.rename` manifest, one `old -> new` line per rename; and the
    `.add` directory, a copy of every added file under its relative path. */
module DiffPackage {
  import opened Results
  import opened Text
  import opened Hashing
  import opened Snapshot
  import opened DiffEngine

  /** One line of the `.rename` manifest, without its "\n". */
  function RenameLine(o: string, n: string): string
  {
    o + " -> " + n
  }

  /** The lines of the `.rename` manifest, in the order of the renames. */
  function RenameLines(rs: seq<(string, string)>): (r: seq<string>)
    ensures |r| == |rs|
  {
    seq(|rs|, i requires 0 <= i < |rs| => RenameLine(rs[i].0, rs[i].1))
  }

  /** A diff package: the two manifests as text, and the files of `.add`
      by their path relative to `.add`. */
  datatype Package = Package(deleteManifest: string, renameManifest: string, add: Tree)

  /** `shutil.copy2` of an added path that the tree does not have. */
  datatype PackageError = MissingSourceFile(path: string)

  /** The first of `paths`, in order, that `tree` lacks. */
  function FirstMissing(paths: seq<string>, tree: Tree): (r: Option<string>)
    ensures r.None? <==> forall p :: p in paths ==> p in tree
    ensures r.Some? ==> r.value in paths && r.value !in tree
    decreases |paths|
  {
    if paths == [] then None
    else
      match FirstMissing(paths[..|paths| - 1], tree)
      case Some(p) => Some(p)
      case None =>
        var last := paths[|paths| - 1];
        assert paths == paths[..|paths| - 1] + [last];
        if last in tree then None else Some(last)
  }

  /** The package `diff` writes for the diff `d` of the tree `tree`: the
      manifests list the deletes and renames in order, and `.add` holds each
      added path's content. Copying a path the tree lacks is the error. */
  function MakePackage(d: Diff, tree: Tree): (r: Result<Package, PackageError>)
    ensures r.Err? <==> exists p :: p in d.add && p !in tree
    ensures r.Ok? ==> r.value.add.Keys == set p | p in d.add
                      && forall p :: p in r.value.add ==> p in tree && r.value.add[p] == tree[p]
    ensures r.Ok? ==> r.value.deleteManifest == Lines(d.delete)
                      && r.value.renameManifest == Lines(RenameLines(d.rename))
  {
    match FirstMissing(d.add, tree)
    case Some(p) => Err(MissingSourceFile(p))
    case None => Ok(Package(Lines(d.delete), Lines(RenameLines(d.rename)), map p | p in d.add :: tree[p]))
  }

  /** `diff` after `generate_diff`: writes `.delete` and `.rename` one line
      at a time, then copies every added file into `.add`. */
  method WritePackage(d: Diff, tree: Tree) returns (r: Result<Package, PackageError>)
    ensures r == MakePackage(d, tree)
  {
    var deleteText := "";
    for i := 0 to |d.delete|
      invariant deleteText == Lines(d.delete[..i])
    {
      LinesStep(d.delete, i);
      deleteText := deleteText + d.delete[i] + "\n";
    }
    WholePrefix(d.delete);
    var renameText := "";
    for i := 0 to |d.rename|
      invariant renameText == Lines(RenameLines(d.rename[..i]))
    {
      var line := RenameLine(d.rename[i].0, d.rename[i].1);
      RenameLinesStep(d.rename, i);
      renameText := renameText + line + "\n";
    }
    WholePrefix(d.rename);
    var add: Tree := map[];
    for i := 0 to |d.add|
      invariant FirstMissing(d.add[..i], tree) == None
      invariant add == map p | p in d.add[..i] :: tree[p]
    {
      var rel := d.add[i];
      if rel !in tree {
        MissingStep(d.add, tree, i);
        return Err(MissingSourceFile(rel));
      }
      AddStep(d.add, tree, i);
      add := add[rel := tree[rel]];
    }
    WholePrefix(d.add);
    r := Ok(Package(deleteText, renameText, add));
  }

  lemma LinesStep(ps: seq<string>, i: nat)
    requires i < |ps|
    ensures Lines(ps[..i + 1]) == Lines(ps[..i]) + ps[i] + "\n"
  {
    LinesSnoc(ps[..i], ps[i]);
    assert ps[..i + 1] == ps[..i] + [ps[i]];
  }

  lemma RenameLinesStep(rs: seq<(string, string)>, i: nat)
    requires i < |rs|
    ensures Lines(RenameLines(rs[..i + 1])) == Lines(RenameLines(rs[..i])) + RenameLine(rs[i].0, rs[i].1) + "\n"
  {
    var line := RenameLine(rs[i].0, rs[i].1);
    LinesSnoc(RenameLines(rs[..i]), line);
    assert RenameLines(rs[..i + 1]) == RenameLines(rs[..i]) + [line];
  }

  /** The first added path the tree lacks ends the copying with an error. */
  lemma MissingStep(add: seq<string>, tree: Tree, i: nat)
    requires i < |add| && FirstMissing(add[..i], tree) == None && add[i] !in tree
    ensures FirstMissing(add, tree) == Some(add[i])
  {
    assert add[..i + 1][..i] == add[..i];
    assert FirstMissing(add[..i + 1], tree) == Some(add[i]);
    FirstMissingSticks(add, tree, i + 1);
  }

  /** One more added path the tree has is copied. */
  lemma AddStep(add: seq<string>, tree: Tree, i: nat)
    requires i < |add| && FirstMissing(add[..i], tree) == None && add[i] in tree
    ensures FirstMissing(add[..i + 1], tree) == None
    ensures (map p | p in add[..i + 1] :: tree[p]) == (map p | p in add[..i] :: tree[p])[add[i] := tree[add[i]]]
  {
    assert add[..i + 1] == add[..i] + [add[i]];
    assert add[..i + 1][..i] == add[..i];
  }

  /** Once a path is found missing, later paths do not change which one is
      reported. */
  lemma {:induction false} FirstMissingSticks(paths: seq<string>, tree: Tree, i: nat)
    requires i <= |paths| && FirstMissing(paths[..i], tree).Some?
    ensures FirstMissing(paths, tree) == FirstMissing(paths[..i], tree)
    decreases |paths|
  {
    if i < |paths| {
      var init := paths[..|paths| - 1];
      assert init[..i] == paths[..i];
      FirstMissingSticks(init, tree, i);
    } else {
      assert paths[..i] == paths;
    }
  }
}
