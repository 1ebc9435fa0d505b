/** The diff engine, `generate_diff`: compares the state loaded from a state
    file (the origin) with the state of the tree now, and sorts the changes
    into paths to add, paths to delete and `(old, new)` renames. */
module DiffEngine {
  import opened Results
  import opened PyDict
  import opened Paths
  import opened Hashing
  import opened Snapshot

  /** The three lists `generate_diff` returns, in the order it appends. */
  datatype Diff = Diff(add: seq<string>, delete: seq<string>, rename: seq<(string, string)>)

  /** The first loop over the first `|ks|` origin paths (`ks` a prefix of the
      origin's keys, in order): an excluded path is skipped; a path gone from
      `now` is a rename to the path `now` last records with the same checksum,
      or else a delete; a path whose checksum changed is an add. */
  function OriginPass(origin: Dict, now: Dict, excluded: string -> bool, ks: seq<string>): Diff
    requires now.Valid()
    requires forall k :: k in ks ==> k in origin.entries
    decreases |ks|
  {
    if ks == [] then Diff([], [], [])
    else OriginStep(origin, now, excluded, OriginPass(origin, now, excluded, ks[..|ks| - 1]), ks[|ks| - 1])
  }

  /** One turn of the first loop, for the origin path `path`. */
  function OriginStep(origin: Dict, now: Dict, excluded: string -> bool, d: Diff, path: string): Diff
    requires now.Valid() && path in origin.entries
  {
    var checksum := origin.entries[path];
    if excluded(path) then d
    else if path !in now.entries then
      if checksum in Inverse(now) then d.(rename := d.rename + [(path, Inverse(now)[checksum])])
      else d.(delete := d.delete + [path])
    else if checksum != now.entries[path] then d.(add := d.add + [path])
    else d
  }

  /** What one turn of the first loop appends to each list. */
  lemma OriginStepLists(origin: Dict, now: Dict, excluded: string -> bool, d: Diff, path: string)
    requires now.Valid() && path in origin.entries
    ensures var c := origin.entries[path];
            var r := OriginStep(origin, now, excluded, d, path);
            var kept := !excluded(path) && path in now.entries;
            var gone := !excluded(path) && path !in now.entries;
            && r.add == d.add + (if kept && c != now.entries[path] then [path] else [])
            && r.delete == d.delete + (if gone && c !in now.entries.Values then [path] else [])
            && r.rename == d.rename + (if gone && c in now.entries.Values then [(path, Inverse(now)[c])] else [])
  {
  }

  lemma OriginPassStep(origin: Dict, now: Dict, excluded: string -> bool, ks: seq<string>, i: nat)
    requires now.Valid() && i < |ks|
    requires forall k :: k in ks ==> k in origin.entries
    ensures OriginPass(origin, now, excluded, ks[..i + 1])
         == OriginStep(origin, now, excluded, OriginPass(origin, now, excluded, ks[..i]), ks[i])
  {
    assert ks[..i + 1][..i] == ks[..i];
    assert ks[..i + 1][i] == ks[i];
  }

  /** The second loop over the paths `ks` of `now`: every path the origin
      does not have, unless excluded, is an add. */
  function NewPaths(origin: Dict, excluded: string -> bool, ks: seq<string>): seq<string>
    decreases |ks|
  {
    if ks == [] then []
    else
      var prior := NewPaths(origin, excluded, ks[..|ks| - 1]);
      var path := ks[|ks| - 1];
      if !excluded(path) && path !in origin.entries then prior + [path] else prior
  }

  lemma NewPathsStep(origin: Dict, excluded: string -> bool, ks: seq<string>, i: nat)
    requires i < |ks|
    ensures NewPaths(origin, excluded, ks[..i + 1])
         == NewPaths(origin, excluded, ks[..i])
            + if !excluded(ks[i]) && ks[i] !in origin.entries then [ks[i]] else []
  {
    assert ks[..i + 1][..i] == ks[..i];
    assert ks[..i + 1][i] == ks[i];
  }

  /** The result of `generate_diff` for two loaded states; `excluded` is the
      exclude test applied to a relative path. */
  function DiffOf(origin: Dict, now: Dict, excluded: string -> bool): Diff
    requires origin.Valid() && now.Valid()
  {
    var d := OriginPass(origin, now, excluded, origin.order);
    d.(add := d.add + NewPaths(origin, excluded, now.order))
  }

  /** The two loops of `generate_diff`, appending to three lists. */
  method ClassifyStates(origin: Dict, now: Dict, excluded: string -> bool) returns (d: Diff)
    requires origin.Valid() && now.Valid()
    ensures d == DiffOf(origin, now, excluded)
  {
    var hashToFileNow := Inverse(now);
    var add: seq<string> := [];
    var delete: seq<string> := [];
    var rename: seq<(string, string)> := [];
    for i := 0 to |origin.order|
      invariant Diff(add, delete, rename) == OriginPass(origin, now, excluded, origin.order[..i])
    {
      var path := origin.order[i];
      var checksum := origin.entries[path];
      OriginPassStep(origin, now, excluded, origin.order, i);
      if excluded(path) {
      } else if path !in now.entries {
        if checksum in hashToFileNow {
          rename := rename + [(path, hashToFileNow[checksum])];
        } else {
          delete := delete + [path];
        }
      } else if checksum != now.entries[path] {
        add := add + [path];
      }
    }
    WholePrefix(origin.order);
    var originAdds := add;
    for i := 0 to |now.order|
      invariant add == originAdds + NewPaths(origin, excluded, now.order[..i])
    {
      var path := now.order[i];
      NewPathsStep(origin, excluded, now.order, i);
      if !excluded(path) && path !in origin.entries {
        add := add + [path];
      }
    }
    WholePrefix(now.order);
    d := Diff(add, delete, rename);
  }

  /** `generate_diff`: loads the origin state from the state file's text,
      takes the state of the tree now, and compares them. A state file that
      does not load is the error. */
  method GenerateDiff(stateText: string, top: string, walk: seq<string>, tree: Tree,
                      walkExcluded: string -> bool, excluded: string -> bool,
                      maxHashSize: int, digest: seq<byte> -> string)
    returns (r: Result<Diff, ParseError>)
    requires forall rel :: rel in walk ==> rel in tree
    ensures ParseState(stateText).Err? ==> r == Err(ParseState(stateText).error)
    ensures ParseState(stateText).Ok? ==>
              r == Ok(DiffOf(ParseState(stateText).value,
                             StateOf(top, walk, tree, walkExcluded, maxHashSize, digest), excluded))
  {
    var loaded := GetStateFromFile(stateText);
    if loaded.Err? {
      return Err(loaded.error);
    }
    var stateNow := GetStateFromSources(top, walk, tree, walkExcluded, maxHashSize, digest);
    var d := ClassifyStates(loaded.value, stateNow, excluded);
    r := Ok(d);
  }

  // ---------------------------------------------------------------------
  // What lands in each list

  /** The origin pass deletes exactly the origin paths that are not
      excluded, are gone from `now`, and whose checksum `now` does not hold;
      each at most once when the keys are distinct. */
  lemma {:induction false} OriginPassDeletes(origin: Dict, now: Dict, excluded: string -> bool, ks: seq<string>)
    requires now.Valid()
    requires forall k :: k in ks ==> k in origin.entries
    ensures forall p :: p in OriginPass(origin, now, excluded, ks).delete <==>
              p in ks && !excluded(p) && p !in now.entries && origin.entries[p] !in now.entries.Values
    decreases |ks|
  {
    if ks != [] {
      var init := ks[..|ks| - 1];
      OriginPassDeletes(origin, now, excluded, init);
      OriginStepLists(origin, now, excluded, OriginPass(origin, now, excluded, init), ks[|ks| - 1]);
      assert ks == init + [ks[|ks| - 1]];
    }
  }

  /** Over distinct origin paths, no path is listed twice. */
  lemma {:induction false} OriginPassDeletesDistinct(origin: Dict, now: Dict, excluded: string -> bool, ks: seq<string>)
    requires now.Valid() && Distinct(ks)
    requires forall k :: k in ks ==> k in origin.entries
    ensures Distinct(OriginPass(origin, now, excluded, ks).delete)
    decreases |ks|
  {
    if ks != [] {
      var init := ks[..|ks| - 1];
      var last := ks[|ks| - 1];
      assert Distinct(init) && last !in init by {
        assert ks == init + [last];
      }
      OriginPassDeletesDistinct(origin, now, excluded, init);
      OriginPassDeletes(origin, now, excluded, init);
      OriginStepLists(origin, now, excluded, OriginPass(origin, now, excluded, init), last);
      DistinctConcat(OriginPass(origin, now, excluded, init).delete, [last]);
    }
  }

  /** The origin pass renames exactly the origin paths that are not
      excluded, are gone from `now`, and whose checksum `now` holds, each to
      the path the reverse index gives for that checksum. */
  lemma {:induction false} OriginPassRenames(origin: Dict, now: Dict, excluded: string -> bool, ks: seq<string>)
    requires now.Valid()
    requires forall k :: k in ks ==> k in origin.entries
    ensures forall o, n :: (o, n) in OriginPass(origin, now, excluded, ks).rename <==>
              o in ks && !excluded(o) && o !in now.entries && origin.entries[o] in now.entries.Values
              && n == Inverse(now)[origin.entries[o]]
    decreases |ks|
  {
    if ks != [] {
      var init := ks[..|ks| - 1];
      OriginPassRenames(origin, now, excluded, init);
      assert ks == init + [ks[|ks| - 1]];
    }
  }

  /** No two renames share a source. */
  predicate SourcesDistinct(rs: seq<(string, string)>) {
    forall i, j :: 0 <= i < j < |rs| ==> rs[i].0 != rs[j].0
  }

  /** Over distinct origin paths, every rename source is one of them and no
      path is renamed twice. */
  lemma {:induction false} OriginPassRenameSources(origin: Dict, now: Dict, excluded: string -> bool, ks: seq<string>)
    requires now.Valid() && Distinct(ks)
    requires forall k :: k in ks ==> k in origin.entries
    ensures var rs := OriginPass(origin, now, excluded, ks).rename;
            SourcesDistinct(rs) && forall i :: 0 <= i < |rs| ==> rs[i].0 in ks
    decreases |ks|
  {
    if ks != [] {
      var init := ks[..|ks| - 1];
      var last := ks[|ks| - 1];
      assert Distinct(init);
      assert last !in init;
      OriginPassRenameSources(origin, now, excluded, init);
      var rs0 := OriginPass(origin, now, excluded, init).rename;
      var rs := OriginPass(origin, now, excluded, ks).rename;
      assert rs == rs0 || rs == rs0 + [(last, Inverse(now)[origin.entries[last]])];
      forall i | 0 <= i < |rs| ensures rs[i].0 in ks {
        if i < |rs0| {
          assert rs[i] == rs0[i] && rs0[i].0 in init;
        }
      }
      if rs != rs0 {
        forall i, j | 0 <= i < j < |rs| ensures rs[i].0 != rs[j].0 {
          assert rs[i] == rs0[i] && rs0[i].0 in init;
          if j < |rs0| {
            assert rs[j] == rs0[j];
          }
        }
      }
    }
  }

  /** The origin pass adds exactly the origin paths that are not excluded
      and that `now` records with a different checksum. */
  lemma {:induction false} OriginPassAdds(origin: Dict, now: Dict, excluded: string -> bool, ks: seq<string>)
    requires now.Valid()
    requires forall k :: k in ks ==> k in origin.entries
    ensures forall p :: p in OriginPass(origin, now, excluded, ks).add <==>
              p in ks && !excluded(p) && p in now.entries && origin.entries[p] != now.entries[p]
    decreases |ks|
  {
    if ks != [] {
      var init := ks[..|ks| - 1];
      OriginPassAdds(origin, now, excluded, init);
      OriginStepLists(origin, now, excluded, OriginPass(origin, now, excluded, init), ks[|ks| - 1]);
      assert ks == init + [ks[|ks| - 1]];
    }
  }

  /** Over distinct origin paths, no path is listed twice. */
  lemma {:induction false} OriginPassAddsDistinct(origin: Dict, now: Dict, excluded: string -> bool, ks: seq<string>)
    requires now.Valid() && Distinct(ks)
    requires forall k :: k in ks ==> k in origin.entries
    ensures Distinct(OriginPass(origin, now, excluded, ks).add)
    decreases |ks|
  {
    if ks != [] {
      var init := ks[..|ks| - 1];
      var last := ks[|ks| - 1];
      assert Distinct(init) && last !in init by {
        assert ks == init + [last];
      }
      OriginPassAddsDistinct(origin, now, excluded, init);
      OriginPassAdds(origin, now, excluded, init);
      OriginStepLists(origin, now, excluded, OriginPass(origin, now, excluded, init), last);
      DistinctConcat(OriginPass(origin, now, excluded, init).add, [last]);
    }
  }

  /** The second pass adds exactly the paths of `ks` the origin lacks and
      that are not excluded. */
  lemma {:induction false} NewPathsMembers(origin: Dict, excluded: string -> bool, ks: seq<string>)
    ensures forall p :: p in NewPaths(origin, excluded, ks) <==> p in ks && !excluded(p) && p !in origin.entries
    ensures Distinct(ks) ==> Distinct(NewPaths(origin, excluded, ks))
    decreases |ks|
  {
    if ks != [] {
      var init := ks[..|ks| - 1];
      NewPathsMembers(origin, excluded, init);
      assert ks == init + [ks[|ks| - 1]];
    }
  }

  /** A path is deleted if and only if the origin has it, it is not
      excluded, `now` does not have it, and no path of `now` has its
      checksum. */
  lemma DeleteMembers(origin: Dict, now: Dict, excluded: string -> bool, p: string)
    requires origin.Valid() && now.Valid()
    ensures p in DiffOf(origin, now, excluded).delete <==>
              p in origin.entries && !excluded(p) && p !in now.entries && origin.entries[p] !in now.entries.Values
  {
    OriginPassDeletes(origin, now, excluded, origin.order);
  }

  /** `(o, n)` is a rename if and only if the origin has `o`, it is not
      excluded, `now` does not have it but holds its checksum, and `n` is
      the path the reverse index of `now` gives for that checksum. */
  lemma RenameMembers(origin: Dict, now: Dict, excluded: string -> bool, o: string, n: string)
    requires origin.Valid() && now.Valid()
    ensures (o, n) in DiffOf(origin, now, excluded).rename <==>
              o in origin.entries && !excluded(o) && o !in now.entries && origin.entries[o] in now.entries.Values
              && n == Inverse(now)[origin.entries[o]]
  {
    OriginPassRenames(origin, now, excluded, origin.order);
  }

  /** A rename moves a file to a path that exists now, holds the same
      checksum, and is a different path. */
  lemma RenameTarget(origin: Dict, now: Dict, excluded: string -> bool, o: string, n: string)
    requires origin.Valid() && now.Valid()
    requires (o, n) in DiffOf(origin, now, excluded).rename
    ensures o in origin.entries && n in now.entries
    ensures now.entries[n] == origin.entries[o] && n != o
  {
    RenameMembers(origin, now, excluded, o, n);
  }

  /** A path is added if and only if it is not excluded, exists now, and
      either is new or has a different checksum than before. */
  lemma AddMembers(origin: Dict, now: Dict, excluded: string -> bool, p: string)
    requires origin.Valid() && now.Valid()
    ensures p in DiffOf(origin, now, excluded).add <==>
              !excluded(p) && p in now.entries && (p !in origin.entries || origin.entries[p] != now.entries[p])
  {
    OriginPassAdds(origin, now, excluded, origin.order);
    NewPathsMembers(origin, excluded, now.order);
  }

  /** A rename whose target is a new path also lists that path as an add. */
  lemma RenameTargetAlsoAdded(origin: Dict, now: Dict, excluded: string -> bool, o: string, n: string)
    requires origin.Valid() && now.Valid()
    requires (o, n) in DiffOf(origin, now, excluded).rename
    requires n !in origin.entries && !excluded(n)
    ensures n in DiffOf(origin, now, excluded).add
  {
    RenameTarget(origin, now, excluded, o, n);
    AddMembers(origin, now, excluded, n);
  }

  /** No path is both added and deleted, and no path renamed away is also
      added or deleted. */
  lemma DiffListsDisjoint(origin: Dict, now: Dict, excluded: string -> bool)
    requires origin.Valid() && now.Valid()
    ensures var d := DiffOf(origin, now, excluded);
            (forall p :: p in d.add ==> p !in d.delete)
            && (forall o, n :: (o, n) in d.rename ==> o !in d.delete && o !in d.add)
  {
    var d := DiffOf(origin, now, excluded);
    forall p | p in d.add ensures p !in d.delete {
      AddMembers(origin, now, excluded, p);
      DeleteMembers(origin, now, excluded, p);
    }
    forall o, n | (o, n) in d.rename ensures o !in d.delete && o !in d.add {
      RenameMembers(origin, now, excluded, o, n);
      AddMembers(origin, now, excluded, o);
      DeleteMembers(origin, now, excluded, o);
    }
  }

  /** Each list has no repeats, and no path is the source of two renames. */
  lemma DiffListsDistinct(origin: Dict, now: Dict, excluded: string -> bool)
    requires origin.Valid() && now.Valid()
    ensures var d := DiffOf(origin, now, excluded);
            Distinct(d.add) && Distinct(d.delete)
            && SourcesDistinct(d.rename)
  {
    var first := OriginPass(origin, now, excluded, origin.order);
    var second := NewPaths(origin, excluded, now.order);
    OriginPassDeletesDistinct(origin, now, excluded, origin.order);
    OriginPassRenameSources(origin, now, excluded, origin.order);
    OriginPassAdds(origin, now, excluded, origin.order);
    OriginPassAddsDistinct(origin, now, excluded, origin.order);
    NewPathsMembers(origin, excluded, now.order);
    DistinctConcat(first.add, second);
  }

  lemma DistinctConcat(a: seq<string>, b: seq<string>)
    requires Distinct(a) && Distinct(b)
    requires forall x :: x in a ==> x !in b
    ensures Distinct(a + b)
  {
    var c := a + b;
    forall i, j | 0 <= i < j < |c| ensures c[i] != c[j] {
      if j < |a| {
        assert c[i] == a[i] && c[j] == a[j];
      } else if i >= |a| {
        assert c[i] == b[i - |a|] && c[j] == b[j - |a|];
      } else {
        assert c[i] == a[i] && a[i] in a;
        assert c[j] == b[j - |a|] && b[j - |a|] in b;
      }
    }
  }

  /** With nothing changed, the diff is empty: a path recorded with the
      same checksum in both states never yields an entry as a source. */
  lemma IdenticalStatesEmptyDiff(origin: Dict, now: Dict, excluded: string -> bool)
    requires origin.Valid() && now.Valid()
    requires origin.entries == now.entries
    ensures DiffOf(origin, now, excluded) == Diff([], [], [])
  {
    var d := DiffOf(origin, now, excluded);
    if d.add != [] {
      AddMembers(origin, now, excluded, d.add[0]);
    }
    if d.delete != [] {
      DeleteMembers(origin, now, excluded, d.delete[0]);
    }
    if d.rename != [] {
      RenameMembers(origin, now, excluded, d.rename[0].0, d.rename[0].1);
    }
  }

  /** A path with the same checksum in both states is neither added nor
      deleted nor renamed away. */
  lemma UnchangedPathNotListed(origin: Dict, now: Dict, excluded: string -> bool, p: string)
    requires origin.Valid() && now.Valid()
    requires p in origin.entries && p in now.entries && origin.entries[p] == now.entries[p]
    ensures var d := DiffOf(origin, now, excluded);
            p !in d.add && p !in d.delete && forall n :: (p, n) !in d.rename
  {
    AddMembers(origin, now, excluded, p);
    DeleteMembers(origin, now, excluded, p);
    forall n ensures (p, n) !in DiffOf(origin, now, excluded).rename {
      RenameMembers(origin, now, excluded, p, n);
    }
  }

  /** An excluded path is never added, deleted or renamed away; it can
      still be the target of a rename. */
  lemma ExcludedNeverListed(origin: Dict, now: Dict, excluded: string -> bool, p: string)
    requires origin.Valid() && now.Valid()
    requires excluded(p)
    ensures var d := DiffOf(origin, now, excluded);
            p !in d.add && p !in d.delete && forall n :: (p, n) !in d.rename
  {
    AddMembers(origin, now, excluded, p);
    DeleteMembers(origin, now, excluded, p);
    forall n ensures (p, n) !in DiffOf(origin, now, excluded).rename {
      RenameMembers(origin, now, excluded, p, n);
    }
  }

  /** A sync in which `a.txt` and `b.txt` are frozen; then
      `b.txt` is renamed to `c.txt`, `d.txt` is created and `a.txt` is
      removed. With three different checksums the diff renames `b.txt` to
      `c.txt` and deletes `a.txt`, and lists both `c.txt` (the new rename
      target) and `d.txt` as adds. */
  lemma SyncScenarioDiff(hA: string, hB: string, hD: string)
    requires hA != hB && hA != hD && hB != hD
    ensures var origin := Dict(["a.txt", "b.txt"], map["a.txt" := hA, "b.txt" := hB]);
            var now := Dict(["c.txt", "d.txt"], map["c.txt" := hB, "d.txt" := hD]);
            origin.Valid() && now.Valid()
            && DiffOf(origin, now, _ => false) == Diff(["c.txt", "d.txt"], ["a.txt"], [("b.txt", "c.txt")])
  {
    var origin := Dict(["a.txt", "b.txt"], map["a.txt" := hA, "b.txt" := hB]);
    var now := Dict(["c.txt", "d.txt"], map["c.txt" := hB, "d.txt" := hD]);
    ScenarioFirstLoop(hA, hB, hD, origin, now, _ => false);
    ScenarioSecondLoop(origin, now, _ => false);
  }

  /** In the scenario, the first loop deletes a.txt and renames b.txt to
      c.txt. */
  lemma ScenarioFirstLoop(hA: string, hB: string, hD: string, origin: Dict, now: Dict, ex: string -> bool)
    requires hA != hB && hA != hD && hB != hD
    requires origin == Dict(["a.txt", "b.txt"], map["a.txt" := hA, "b.txt" := hB])
    requires now == Dict(["c.txt", "d.txt"], map["c.txt" := hB, "d.txt" := hD])
    requires forall p :: !ex(p)
    ensures now.Valid()
    ensures OriginPass(origin, now, ex, origin.order) == Diff([], ["a.txt"], [("b.txt", "c.txt")])
  {
    ScenarioIndex(hA, hB, hD, now);
    assert "a.txt" !in now.entries && "b.txt" !in now.entries;
    var first := Diff([], ["a.txt"], []);
    assert OriginStep(origin, now, ex, Diff([], [], []), "a.txt") == first;
    assert OriginStep(origin, now, ex, first, "b.txt") == Diff([], ["a.txt"], [("b.txt", "c.txt")]);
    assert OriginPass(origin, now, ex, origin.order[..1]) == first by {
      OriginPassStep(origin, now, ex, origin.order, 0);
      assert origin.order[..0] == [];
    }
    OriginPassStep(origin, now, ex, origin.order, 1);
    WholePrefix(origin.order);
  }

  /** In the scenario, the reverse index of `now` sends b.txt's checksum to
      c.txt and does not know a.txt's. */
  lemma ScenarioIndex(hA: string, hB: string, hD: string, now: Dict)
    requires hA != hB && hA != hD && hB != hD
    requires now == Dict(["c.txt", "d.txt"], map["c.txt" := hB, "d.txt" := hD])
    ensures now.Valid()
    ensures hA !in Inverse(now) && hB in Inverse(now) && Inverse(now)[hB] == "c.txt"
  {
    assert now.entries["c.txt"] == hB;
    assert hA !in now.entries.Values;
  }

  /** In the scenario, the second loop adds both paths of `now`. */
  lemma ScenarioSecondLoop(origin: Dict, now: Dict, ex: string -> bool)
    requires origin.entries.Keys == {"a.txt", "b.txt"}
    requires now.order == ["c.txt", "d.txt"]
    requires forall p :: !ex(p)
    ensures NewPaths(origin, ex, now.order) == ["c.txt", "d.txt"]
  {
    NewPathsStep(origin, ex, now.order, 0);
    NewPathsStep(origin, ex, now.order, 1);
    WholePrefix(now.order);
  }

  /** A path kept unchanged can still be the target of a rename: when two
      origin files share a checksum and one of them is gone, it is renamed
      onto the one that stayed. */
  lemma RenameOntoUnchangedPath(h: string)
    ensures var origin := Dict(["a", "b"], map["a" := h, "b" := h]);
            var now := Dict(["b"], map["b" := h]);
            origin.Valid() && now.Valid()
            && DiffOf(origin, now, _ => false) == Diff([], [], [("a", "b")])
  {
    var origin := Dict(["a", "b"], map["a" := h, "b" := h]);
    var now := Dict(["b"], map["b" := h]);
    assert now.entries["b"] == h;
    assert h in now.entries.Values;
    assert Inverse(now)[h] == "b";
    assert origin.order[..1] == ["a"];
    var ex: string -> bool := p => false;
    assert OriginPass(origin, now, ex, ["a"]) == Diff([], [], [("a", "b")]);
    assert NewPaths(origin, ex, ["b"]) == [];
  }
}
