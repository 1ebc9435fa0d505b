/** The few Python string and text-file operations the sync tool relies on:
    `str.strip`, `str.find`, `str.split`, and `readlines()` on a file opened
    in text mode. Strings are sequences of Unicode scalar values. */
module Text {
  import opened Results

  /** Python's `str.isspace()` for one character. */
  predicate IsSpace(c: char) {
    var n := c as int;
    (9 <= n <= 13) || (28 <= n <= 32) || n == 0x85 || n == 0xA0 || n == 0x1680
    || (0x2000 <= n <= 0x200A) || n == 0x2028 || n == 0x2029 || n == 0x202F
    || n == 0x205F || n == 0x3000
  }

  /** A character that ends a line when a file is read in text mode
      (universal newlines). */
  predicate IsBreak(c: char) {
    c == '\n' || c == '\r'
  }

  predicate NoBreak(s: string) {
    forall j :: 0 <= j < |s| ==> !IsBreak(s[j])
  }

  /** Neither end of `s` is whitespace, so `strip()` leaves it alone; the
      empty string is trimmed. */
  predicate Trimmed(s: string) {
    s == [] || (!IsSpace(s[0]) && !IsSpace(s[|s| - 1]))
  }

  /** `s.lstrip()`: the longest suffix of `s` that does not start with
      whitespace. */
  function LStrip(s: string): (r: string)
    ensures |r| <= |s| && r == s[|s| - |r|..]
    ensures forall i :: 0 <= i < |s| - |r| ==> IsSpace(s[i])
    ensures r == [] || !IsSpace(r[0])
    decreases |s|
  {
    if s != [] && IsSpace(s[0]) then LStrip(s[1..]) else s
  }

  /** `s.rstrip()`: the longest prefix of `s` that does not end with
      whitespace. */
  function RStrip(s: string): (r: string)
    ensures |r| <= |s| && r == s[..|r|]
    ensures forall i :: |r| <= i < |s| ==> IsSpace(s[i])
    ensures r == [] || !IsSpace(r[|r| - 1])
    decreases |s|
  {
    if s != [] && IsSpace(s[|s| - 1]) then RStrip(s[..|s| - 1]) else s
  }

  /** `s.strip()`: the part of `s` left between its leading and its
      trailing whitespace. */
  function Strip(s: string): (r: string)
    ensures Trimmed(r)
    ensures |r| <= |s|
  {
    RStrip(LStrip(s))
  }

  /** `strip()` cuts off whitespace only: what it returns is a slice of its
      input with nothing but whitespace before and after it, and with none
      at either end. */
  lemma StripRemovesOuterSpace(s: string)
    ensures Trimmed(Strip(s)) && exists i :: StrippedAt(s, Strip(s), i)
  {
    var l := LStrip(s);
    var r := RStrip(l);
    var i := |s| - |l|;
    assert r == s[i..i + |r|];
    forall j | i + |r| <= j < |s| ensures IsSpace(s[j]) {
      assert s[j] == l[j - i];
    }
    assert StrippedAt(s, r, i);
  }

  /** `r` is the part of `s` from index `i` on, with only whitespace
      before and after it. */
  ghost predicate StrippedAt(s: string, r: string, i: int) {
    0 <= i <= |s| - |r| && r == s[i..i + |r|]
    && (forall j :: 0 <= j < i ==> IsSpace(s[j]))
    && (forall j :: i + |r| <= j < |s| ==> IsSpace(s[j]))
  }

  /** Stripping a line read back from a file gives the written line exactly
      when that line has no whitespace at either end. */
  lemma {:induction false} StripLine(s: string)
    requires Trimmed(s)
    ensures Strip(s + "\n") == s
  {
    var t := s + "\n";
    if s == [] {
      assert RStrip(t) == RStrip(t[..0]);
      assert LStrip(t) == LStrip(t[1..]);
      assert t[1..] == [];
    } else {
      assert LStrip(t) == t;
      assert t[..|t| - 1] == s;
      assert RStrip(t) == RStrip(s);
      assert RStrip(s) == s;
    }
  }

  /** `sep` occurs in `s` at position `i`. */
  predicate OccursAt(s: string, sep: string, i: int) {
    0 <= i && i + |sep| <= |s| && s[i..i + |sep|] == sep
  }

  /** `s` does not contain `sep` anywhere. */
  predicate Lacks(s: string, sep: string) {
    forall j :: 0 <= j < |s| ==> !OccursAt(s, sep, j)
  }

  function FindFrom(s: string, sep: string, i: nat): (r: Option<nat>)
    ensures r.Some? ==> i <= r.value && OccursAt(s, sep, r.value)
    ensures forall j :: i <= j && (r.None? || j < r.value) ==> !OccursAt(s, sep, j)
    decreases |s| - i
  {
    if i + |sep| > |s| then None
    else if s[i..i + |sep|] == sep then Some(i)
    else FindFrom(s, sep, i + 1)
  }

  /** Python's `s.find(sep)`, with `None` for -1: the first position at which
      `sep` occurs. */
  function Find(s: string, sep: string): (r: Option<nat>)
    ensures r.Some? ==> OccursAt(s, sep, r.value)
    ensures forall j :: (r.None? || j < r.value) ==> !OccursAt(s, sep, j)
  {
    FindFrom(s, sep, 0)
  }

  /** Python's `sep.join(pieces)` (for at least one piece). */
  function Joined(pieces: seq<string>, sep: string): string
    requires |pieces| >= 1
  {
    if |pieces| == 1 then pieces[0] else pieces[0] + sep + Joined(pieces[1..], sep)
  }

  /** Python's `s.split(sep, maxsplit)`; a negative `maxsplit` means no limit.
      No piece but the last contains `sep`, and the last does not either
      unless the limit was reached. */
  function Split(s: string, sep: string, maxsplit: int): (r: seq<string>)
    requires |sep| > 0
    ensures 1 <= |r| && (maxsplit >= 0 ==> |r| <= maxsplit + 1)
    ensures forall k :: 0 <= k < |r| - 1 ==> Lacks(r[k], sep)
    ensures maxsplit < 0 || |r| <= maxsplit ==> Lacks(r[|r| - 1], sep)
    decreases |s|
  {
    match Find(s, sep)
    case None => [s]
    case Some(i) =>
      if maxsplit == 0 then [s]
      else
        var rest := Split(s[i + |sep|..], sep, if maxsplit < 0 then maxsplit else maxsplit - 1);
        BeforeFirstLacks(s, sep, i);
        [s[..i]] + rest
  }

  /** The pieces of a split, joined again with the separator, give back the
      string split. */
  lemma {:induction false} SplitJoined(s: string, sep: string, maxsplit: int)
    requires |sep| > 0
    ensures Joined(Split(s, sep, maxsplit), sep) == s
    decreases |s|
  {
    match Find(s, sep)
    case None =>
    case Some(i) =>
      if maxsplit != 0 {
        var m := if maxsplit < 0 then maxsplit else maxsplit - 1;
        var tail := s[i + |sep|..];
        SplitJoined(tail, sep, m);
        SplitFirst(s, sep, maxsplit, i);
        JoinedCons(s[..i], Split(tail, sep, m), sep);
        AroundOccurrence(s, sep, i);
      }
  }

  /** A split that finds `sep` at `i` cuts there and goes on after it. */
  lemma SplitFirst(s: string, sep: string, maxsplit: int, i: nat)
    requires |sep| > 0 && maxsplit != 0 && Find(s, sep) == Some(i)
    ensures i + |sep| <= |s|
    ensures Split(s, sep, maxsplit) == [s[..i]] + Split(s[i + |sep|..], sep, if maxsplit < 0 then maxsplit else maxsplit - 1)
  {
    assert OccursAt(s, sep, i);
  }

  lemma JoinedCons(p: string, rest: seq<string>, sep: string)
    requires |rest| >= 1
    ensures Joined([p] + rest, sep) == p + sep + Joined(rest, sep)
  {
    assert ([p] + rest)[1..] == rest;
  }

  /** The text before an occurrence of `sep`, `sep`, and the text after it
      make up the whole. */
  lemma AroundOccurrence(s: string, sep: string, i: nat)
    requires OccursAt(s, sep, i)
    ensures s[..i] + sep + s[i + |sep|..] == s
  {
    assert s == s[..i] + s[i..i + |sep|] + s[i + |sep|..];
  }

  /** The text before the first occurrence of `sep` does not contain it. */
  lemma BeforeFirstLacks(s: string, sep: string, i: nat)
    requires Find(s, sep) == Some(i)
    ensures Lacks(s[..i], sep)
  {
    forall j | 0 <= j < i && OccursAt(s[..i], sep, j) ensures false {
      assert s[..i][j..j + |sep|] == s[j..j + |sep|];
      assert OccursAt(s, sep, j);
    }
  }

  /** Splitting `a + sep + b` cuts at the separator written between them when
      `sep` occurs nowhere earlier. */
  lemma SplitAt(a: string, sep: string, b: string, maxsplit: int)
    requires |sep| > 0 && maxsplit != 0
    requires forall j :: 0 <= j < |a| ==> !OccursAt(a + sep + b, sep, j)
    ensures Split(a + sep + b, sep, maxsplit)
         == [a] + Split(b, sep, if maxsplit < 0 then maxsplit else maxsplit - 1)
  {
    var s := a + sep + b;
    assert s[|a|..|a| + |sep|] == sep;
    assert OccursAt(s, sep, |a|);
    assert Find(s, sep) == Some(|a|);
    assert s[..|a|] == a;
    assert s[|a| + |sep|..] == b;
  }

  /** A string without `sep` splits into itself alone. */
  lemma SplitWhole(s: string, sep: string, maxsplit: int)
    requires |sep| > 0 && Lacks(s, sep)
    ensures Split(s, sep, maxsplit) == [s]
  {
    assert Find(s, sep).None?;
  }

  /** The text of a file written one line at a time, each followed by "\n". */
  function Lines(ls: seq<string>): string
  {
    if ls == [] then [] else ls[0] + "\n" + Lines(ls[1..])
  }

  /** Writing one more line appends it and its "\n". */
  lemma {:induction false} LinesSnoc(ls: seq<string>, l: string)
    ensures Lines(ls + [l]) == Lines(ls) + l + "\n"
  {
    if ls != [] {
      assert (ls + [l])[1..] == ls[1..] + [l];
      LinesSnoc(ls[1..], l);
    }
  }

  /** Index of the first line terminator at or after `i`, or `|t|`. */
  function BreakFrom(t: string, i: nat): (r: nat)
    requires i <= |t|
    ensures i <= r <= |t|
    ensures r < |t| ==> IsBreak(t[r])
    ensures forall j :: i <= j < r ==> !IsBreak(t[j])
    decreases |t| - i
  {
    if i == |t| || IsBreak(t[i]) then i else BreakFrom(t, i + 1)
  }

  /** Python's `f.readlines()` on a file opened in text mode (universal
      newlines): "\n", "\r" and "\r\n" each end a line and read back as
      "\n"; every line but possibly the last keeps that "\n". */
  function ReadLines(t: string): (r: seq<string>)
    ensures forall k :: 0 <= k < |r| ==> r[k] != []
    ensures t == [] <==> r == []
    decreases |t|
  {
    if t == [] then []
    else
      var i := BreakFrom(t, 0);
      if i == |t| then [t]
      else
        var next := if t[i] == '\r' && i + 1 < |t| && t[i + 1] == '\n' then i + 2 else i + 1;
        [t[..i] + "\n"] + ReadLines(t[next..])
  }

  /** Each line followed by "\n", as `readlines()` returns them. */
  function Terminated(ls: seq<string>): (r: seq<string>)
    ensures |r| == |ls|
  {
    seq(|ls|, k requires 0 <= k < |ls| => ls[k] + "\n")
  }

  /** A line without terminators, followed by "\n", is read back as one
      line, and reading continues after it. */
  lemma ReadLinesCons(a: string, rest: string)
    requires NoBreak(a)
    ensures ReadLines(a + "\n" + rest) == [a + "\n"] + ReadLines(rest)
  {
    var t := a + "\n" + rest;
    assert t[|a|] == '\n';
    var i := BreakFrom(t, 0);
    assert i == |a|;
    assert t[..i] == a;
    assert t[i + 1..] == rest;
  }

  /** Reading back a file written line by line gives the written lines, each
      with its "\n", provided no line holds a line terminator. */
  lemma {:induction false} ReadLinesOfLines(ls: seq<string>)
    requires forall k :: 0 <= k < |ls| ==> NoBreak(ls[k])
    ensures ReadLines(Lines(ls)) == Terminated(ls)
  {
    if ls != [] {
      ReadLinesCons(ls[0], Lines(ls[1..]));
      ReadLinesOfLines(ls[1..]);
      assert Terminated(ls) == [ls[0] + "\n"] + Terminated(ls[1..]);
    }
  }
}
