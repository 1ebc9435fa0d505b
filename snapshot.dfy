/** Snapshots: the state of a directory as a dict from relative path to
    checksum, computed from the tree (`generate_state`,
    `get_state_from_sources`), written as a state file (`freeze`) and read
    back from one (`get_state_from_file`). */
module Snapshot {
  import opened Results
  import opened Text
  import opened PyDict
  import opened Paths
  import opened Hashing

  /** A directory tree: the content of every regular file, by its path
      relative to the directory. */
  type Tree = map<string, seq<byte>>

  /** A path `os.walk` can report below a directory: not absolute. */
  predicate Relative(rel: string) {
    rel == [] || rel[0] != '/'
  }

  /** The state of `top` after visiting the files `walk` (relative paths, in
      the order `os.walk(top)` yields them): each file whose joined path is
      not excluded is fingerprinted and recorded under the path relative to
      `top`; a later record for the same key overwrites the earlier one. */
  function StateOf(top: string, walk: seq<string>, tree: Tree, excluded: string -> bool,
                   maxHashSize: int, digest: seq<byte> -> string): (r: Dict)
    requires forall rel :: rel in walk ==> rel in tree
    ensures r.Valid()
    decreases |walk|
  {
    if walk == [] then Empty()
    else
      var rel := walk[|walk| - 1];
      var path := Join(top, rel);
      var prior := StateOf(top, walk[..|walk| - 1], tree, excluded, maxHashSize, digest);
      if excluded(path) then prior
      else prior.Set(RelPath(top, path), Fingerprint(tree[rel], maxHashSize, digest))
  }

  /** `get_state_from_sources` over `generate_state`: fills a dict while
      walking the tree. */
  method GetStateFromSources(top: string, walk: seq<string>, tree: Tree, excluded: string -> bool,
                             maxHashSize: int, digest: seq<byte> -> string)
    returns (state: Dict)
    requires forall rel :: rel in walk ==> rel in tree
    ensures state == StateOf(top, walk, tree, excluded, maxHashSize, digest)
  {
    state := Empty();
    for i := 0 to |walk|
      invariant state == StateOf(top, walk[..i], tree, excluded, maxHashSize, digest)
    {
      var rel := walk[i];
      var path := Join(top, rel);
      assert walk[..i + 1][..i] == walk[..i];
      if !excluded(path) {
        var checksum := CalculateChecksum(tree[rel], maxHashSize, digest);
        state := state.Set(RelPath(top, path), checksum);
      }
    }
    assert walk[..|walk|] == walk;
  }

  /** The fingerprint of every visited file that is not excluded, by its
      relative path. */
  function TreeState(top: string, walk: seq<string>, tree: Tree, excluded: string -> bool,
                     maxHashSize: int, digest: seq<byte> -> string): map<string, string>
    requires forall rel :: rel in walk ==> rel in tree
  {
    map rel | rel in walk && !excluded(Join(top, rel)) :: Fingerprint(tree[rel], maxHashSize, digest)
  }

  /** A snapshot records, for every visited file that is not excluded,
      exactly the fingerprint of its content, under its own relative path. */
  lemma {:induction false} StateOfTree(top: string, walk: seq<string>, tree: Tree, excluded: string -> bool,
                                       maxHashSize: int, digest: seq<byte> -> string)
    requires forall rel :: rel in walk ==> rel in tree && Relative(rel)
    ensures StateOf(top, walk, tree, excluded, maxHashSize, digest).entries
         == TreeState(top, walk, tree, excluded, maxHashSize, digest)
  {
    if walk != [] {
      var init := walk[..|walk| - 1];
      var rel := walk[|walk| - 1];
      StateOfTree(top, init, tree, excluded, maxHashSize, digest);
      assert rel in walk && Relative(rel);
      RelPathOfJoin(top, rel);
      TreeStateSnoc(top, walk, tree, excluded, maxHashSize, digest);
    }
  }

  /** Visiting one more file adds its fingerprint unless it is excluded. */
  lemma TreeStateSnoc(top: string, walk: seq<string>, tree: Tree, excluded: string -> bool,
                      maxHashSize: int, digest: seq<byte> -> string)
    requires walk != [] && forall rel :: rel in walk ==> rel in tree
    ensures var rel := walk[|walk| - 1];
            var m0 := TreeState(top, walk[..|walk| - 1], tree, excluded, maxHashSize, digest);
            TreeState(top, walk, tree, excluded, maxHashSize, digest)
              == if excluded(Join(top, rel)) then m0 else m0[rel := Fingerprint(tree[rel], maxHashSize, digest)]
  {
    var init := walk[..|walk| - 1];
    var rel := walk[|walk| - 1];
    assert walk == init + [rel];
  }

  /** One line of a state file as `freeze` writes it: the checksum, two
      spaces, the path. */
  function StateLine(path: string, checksum: string): string
  {
    checksum + "  " + path
  }

  /** The lines `freeze` writes for `d`, in the dict's order. */
  function StateLines(d: Dict): (r: seq<string>)
    requires d.Valid()
    ensures |r| == |d.order|
  {
    seq(|d.order|, i requires 0 <= i < |d.order| => StateLine(d.order[i], d.entries[d.order[i]]))
  }

  /** The state file `freeze` writes for `d`. */
  function StateText(d: Dict): string
    requires d.Valid()
  {
    Lines(StateLines(d))
  }

  /** `freeze`: takes the state of the tree and writes one line per entry,
      in the dict's order. */
  method Freeze(top: string, walk: seq<string>, tree: Tree, excluded: string -> bool,
                maxHashSize: int, digest: seq<byte> -> string)
    returns (text: string)
    requires forall rel :: rel in walk ==> rel in tree
    ensures text == StateText(StateOf(top, walk, tree, excluded, maxHashSize, digest))
  {
    var state := GetStateFromSources(top, walk, tree, excluded, maxHashSize, digest);
    ghost var ls := StateLines(state);
    text := "";
    for i := 0 to |state.order|
      invariant text == Lines(ls[..i])
    {
      var key := state.order[i];
      var line := StateLine(key, state.entries[key]);
      StateLinesSnoc(state, i);
      text := text + line + "\n";
    }
    WholePrefix(ls);
  }

  /** Writing the line of the `i`-th key extends the text of the lines
      before it. */
  lemma StateLinesSnoc(d: Dict, i: nat)
    requires d.Valid() && i < |d.order|
    ensures d.order[i] in d.entries
    ensures Lines(StateLines(d)[..i + 1])
            == Lines(StateLines(d)[..i]) + StateLine(d.order[i], d.entries[d.order[i]]) + "\n"
  {
    var ls := StateLines(d);
    assert ls[..i + 1] == ls[..i] + [ls[i]];
    LinesSnoc(ls[..i], ls[i]);
  }

  /** A tree's state records every file's fingerprint under its own
      relative path when every file is visited and none is excluded. */
  lemma StateOfWholeTree(top: string, walk: seq<string>, tree: Tree, excluded: string -> bool,
                         maxHashSize: int, digest: seq<byte> -> string)
    requires forall rel :: rel in walk <==> rel in tree
    requires forall rel :: rel in walk ==> Relative(rel)
    requires forall p :: !excluded(p)
    ensures var s := StateOf(top, walk, tree, excluded, maxHashSize, digest).entries;
            s.Keys == tree.Keys && forall p :: p in s ==> s[p] == Fingerprint(tree[p], maxHashSize, digest)
  {
    StateOfTree(top, walk, tree, excluded, maxHashSize, digest);
    var s := TreeState(top, walk, tree, excluded, maxHashSize, digest);
    forall p ensures p in s <==> p in tree {
      assert !excluded(Join(top, p));
    }
    assert s.Keys == tree.Keys;
  }

  datatype ParseError = MissingSeparator(line: string)

  /** What one line of a state file says, as `(path, checksum)`: after
      `strip()`, the text before the first two-space separator is the
      checksum and the text up to a second one the path. A line with no
      separator is an error (`tokens[1]` raises IndexError). */
  function ParseStateLine(line: string): (r: Result<(string, string), ParseError>)
    ensures r.Err? <==> Lacks(Strip(line), "  ")
    ensures r.Ok? ==> Lacks(r.value.0, "  ") && Lacks(r.value.1, "  ")
  {
    var tokens := Split(Strip(line), "  ", 2);
    if |tokens| < 2 then Err(MissingSeparator(line)) else Ok((tokens[1], tokens[0]))
  }

  /** The dict built from the lines of a state file, in order; the first bad
      line is the error. */
  function ParseLines(lines: seq<string>): (r: Result<Dict, ParseError>)
    ensures r.Ok? ==> r.value.Valid()
    decreases |lines|
  {
    if lines == [] then Ok(Empty())
    else
      match ParseLines(lines[..|lines| - 1])
      case Err(e) => Err(e)
      case Ok(d) =>
        match ParseStateLine(lines[|lines| - 1])
        case Err(e) => Err(e)
        case Ok(entry) => Ok(d.Set(entry.0, entry.1))
  }

  /** The state that a state file with this text loads as. */
  function ParseState(text: string): Result<Dict, ParseError>
  {
    ParseLines(ReadLines(text))
  }

  /** Once some line fails, more lines after it do not change the outcome. */
  lemma {:induction false} ParseLinesErrorSticks(lines: seq<string>, i: nat)
    requires i <= |lines| && ParseLines(lines[..i]).Err?
    ensures ParseLines(lines) == ParseLines(lines[..i])
    decreases |lines|
  {
    if i < |lines| {
      var init := lines[..|lines| - 1];
      assert init[..i] == lines[..i];
      ParseLinesErrorSticks(init, i);
    } else {
      assert lines[..i] == lines;
    }
  }

  /** One more line: the dict so far takes that line's entry, or the line's
      error becomes the outcome. */
  lemma ParseLinesStep(lines: seq<string>, i: nat)
    requires i < |lines|
    ensures ParseLines(lines[..i + 1])
         == match ParseLines(lines[..i])
            case Err(e) => Err(e)
            case Ok(d) =>
              match ParseStateLine(lines[i])
              case Err(e) => Err(e)
              case Ok(entry) => Ok(d.Set(entry.0, entry.1))
  {
    assert lines[..i + 1][..i] == lines[..i];
    assert lines[..i + 1][i] == lines[i];
  }

  /** `get_state_from_file`: reads the lines and fills a dict, one line at a
      time. */
  method GetStateFromFile(text: string) returns (r: Result<Dict, ParseError>)
    ensures r == ParseState(text)
  {
    var lines := ReadLines(text);
    var state := Empty();
    for i := 0 to |lines|
      invariant ParseLines(lines[..i]) == Ok(state)
    {
      var tokens := Split(Strip(lines[i]), "  ", 2);
      ParseLinesStep(lines, i);
      if |tokens| < 2 {
        ParseLinesErrorSticks(lines, i + 1);
        return Err(MissingSeparator(lines[i]));
      }
      state := state.Set(tokens[1], tokens[0]);
    }
    assert lines[..|lines|] == lines;
    r := Ok(state);
  }

  /** A state file in which some line, once stripped, has no two-space
      separator does not load. */
  lemma ParseRejectsLineWithoutSeparator(text: string, k: nat)
    requires k < |ReadLines(text)| && Lacks(Strip(ReadLines(text)[k]), "  ")
    ensures ParseState(text).Err?
  {
    var lines := ReadLines(text);
    assert lines[..k + 1][..k] == lines[..k];
    assert ParseLines(lines[..k + 1]).Err?;
    ParseLinesErrorSticks(lines, k + 1);
  }

  /** The line records an entry for `path`. */
  predicate Names(line: string, path: string) {
    ParseStateLine(line).Ok? && ParseStateLine(line).value.0 == path
  }

  /** Later lines overwrite earlier ones: the checksum recorded for a path
      is the one on the last line that names it. */
  lemma {:induction false} ParseLastLineWins(lines: seq<string>, k: nat, path: string, checksum: string)
    requires k < |lines| && ParseStateLine(lines[k]) == Ok((path, checksum))
    requires forall j :: k < j < |lines| ==> !Names(lines[j], path)
    requires ParseLines(lines).Ok?
    ensures path in ParseLines(lines).value.entries && ParseLines(lines).value.entries[path] == checksum
    decreases |lines|
  {
    var init := lines[..|lines| - 1];
    if k < |lines| - 1 {
      NamedNowhereAfter(lines, init, k, path);
      LastLineEntry(lines, path);
      ParseLastLineWins(init, k, path, checksum);
    } else {
      LastLineEntry(lines, path);
    }
  }

  lemma NamedNowhereAfter(lines: seq<string>, init: seq<string>, k: nat, path: string)
    requires k < |lines| - 1 && init == lines[..|lines| - 1]
    requires forall j :: k < j < |lines| ==> !Names(lines[j], path)
    ensures !Names(lines[|lines| - 1], path) && init[k] == lines[k]
    ensures forall j :: k < j < |init| ==> !Names(init[j], path)
  {
  }

  /** The entry for `path` after the last line: the last line's checksum
      when it names `path`, the earlier one otherwise. */
  lemma LastLineEntry(lines: seq<string>, path: string)
    requires lines != [] && ParseLines(lines).Ok?
    ensures ParseLines(lines[..|lines| - 1]).Ok?
    ensures var before := ParseLines(lines[..|lines| - 1]).value.entries;
            var after := ParseLines(lines).value.entries;
            if Names(lines[|lines| - 1], path) then
              path in after && after[path] == ParseStateLine(lines[|lines| - 1]).value.1
            else
              (path in after <==> path in before) && (path in before ==> after[path] == before[path])
  {
    ParseLinesLast(lines);
  }

  /** A state text that parses is its lines but the last, parsed, with the
      last line's entry set. */
  lemma ParseLinesLast(lines: seq<string>)
    requires lines != [] && ParseLines(lines).Ok?
    ensures ParseLines(lines[..|lines| - 1]).Ok? && ParseStateLine(lines[|lines| - 1]).Ok?
    ensures var entry := ParseStateLine(lines[|lines| - 1]).value;
            ParseLines(lines).value == ParseLines(lines[..|lines| - 1]).value.Set(entry.0, entry.1)
  {
  }

  /** A path that survives a trip through a state file: no line break, no
      two consecutive spaces, not empty and no whitespace at its end. */
  predicate SafePath(p: string) {
    p != [] && NoBreak(p) && Lacks(p, "  ") && !IsSpace(p[|p| - 1])
  }

  /** A checksum that survives the trip: not empty and free of whitespace,
      as a hex digest is. */
  predicate SafeChecksum(c: string) {
    c != [] && forall j :: 0 <= j < |c| ==> !IsSpace(c[j])
  }

  /** One written line reads back as the path and checksum written. */
  lemma StateLineRoundTrip(path: string, checksum: string)
    requires SafePath(path) && SafeChecksum(checksum)
    ensures ParseStateLine(StateLine(path, checksum) + "\n") == Ok((path, checksum))
  {
    var line := StateLine(path, checksum);
    assert line[0] == checksum[0] && line[|line| - 1] == path[|path| - 1];
    StripLine(line);
    forall j | 0 <= j < |checksum| ensures !OccursAt(checksum + "  " + path, "  ", j) {
      assert (checksum + "  " + path)[j] == checksum[j];
    }
    SplitAt(checksum, "  ", path, 2);
    SplitWhole(path, "  ", 1);
  }

  /** The entries of `d` whose keys are among `ks`. */
  function Restrict(d: Dict, ks: seq<string>): map<string, string>
    requires d.Valid()
  {
    map k | k in ks && k in d.entries :: d.entries[k]
  }

  lemma {:induction false} ParseStatePrefix(d: Dict, i: nat)
    requires d.Valid() && i <= |d.order|
    requires forall p :: p in d.entries ==> SafePath(p) && SafeChecksum(d.entries[p])
    ensures ParseLines(Terminated(StateLines(d))[..i]) == Ok(Dict(d.order[..i], Restrict(d, d.order[..i])))
  {
    var lines := Terminated(StateLines(d));
    if i == 0 {
      assert lines[..0] == [];
      assert Restrict(d, []) == map[];
    } else {
      ParseStatePrefix(d, i - 1);
      var p := d.order[i - 1];
      var c := d.entries[p];
      assert lines[i - 1] == StateLine(p, c) + "\n";
      StateLineRoundTrip(p, c);
      ParseLinesStep(lines, i - 1);
      RestrictSnoc(d, i);
    }
  }

  lemma RestrictSnoc(d: Dict, i: nat)
    requires d.Valid() && 0 < i <= |d.order|
    ensures d.order[i - 1] !in Restrict(d, d.order[..i - 1])
    ensures Dict(d.order[..i - 1], Restrict(d, d.order[..i - 1])).Set(d.order[i - 1], d.entries[d.order[i - 1]])
         == Dict(d.order[..i], Restrict(d, d.order[..i]))
  {
    var p := d.order[i - 1];
    assert d.order[..i] == d.order[..i - 1] + [p];
    assert p !in d.order[..i - 1];
    assert Restrict(d, d.order[..i]) == Restrict(d, d.order[..i - 1])[p := d.entries[p]];
  }

  /** A line as `freeze` writes it holds no line terminator. */
  lemma StateLineNoBreak(path: string, checksum: string)
    requires SafePath(path) && SafeChecksum(checksum)
    ensures NoBreak(StateLine(path, checksum))
  {
    var line := StateLine(path, checksum);
    forall j | 0 <= j < |line| ensures !IsBreak(line[j]) {
      if j < |checksum| {
        assert line[j] == checksum[j];
      } else if j >= |checksum| + 2 {
        assert line[j] == path[j - |checksum| - 2];
      }
    }
  }

  /** Loading what `freeze` wrote gives back the same dict, order included,
      provided every path and checksum is safe for the line format. */
  lemma StateTextRoundTrip(d: Dict)
    requires d.Valid()
    requires forall p :: p in d.entries ==> SafePath(p) && SafeChecksum(d.entries[p])
    ensures ParseState(StateText(d)) == Ok(d)
  {
    var ls := StateLines(d);
    assert forall k :: 0 <= k < |ls| ==> NoBreak(ls[k]) by {
      forall k | 0 <= k < |ls| ensures NoBreak(ls[k]) {
        StateLineNoBreak(d.order[k], d.entries[d.order[k]]);
      }
    }
    ReadLinesOfLines(ls);
    ParseAllStateLines(d);
  }

  lemma {:induction false} ParseAllStateLines(d: Dict)
    requires d.Valid()
    requires forall p :: p in d.entries ==> SafePath(p) && SafeChecksum(d.entries[p])
    ensures ParseLines(Terminated(StateLines(d))) == Ok(d)
  {
    var lines := Terminated(StateLines(d));
    var n := |d.order|;
    ParseStatePrefix(d, n);
    WholePrefix(lines);
    WholePrefix(d.order);
    RestrictAll(d);
  }

  lemma WholePrefix<T>(s: seq<T>)
    ensures s[..|s|] == s
  {
  }

  lemma RestrictAll(d: Dict)
    requires d.Valid()
    ensures Dict(d.order, Restrict(d, d.order)) == d
  {
    assert Restrict(d, d.order).Keys == d.entries.Keys;
  }
}
