/** Python's insertion-ordered `dict` from string to string (the only kind
    the sync tool builds: path to checksum), as far as the tool uses it:
    assignment, membership, lookup, iteration in insertion order, and the
    value-to-key inversion `{v: k for k, v in d.items()}`. */
module PyDict {

  predicate Distinct<T(==)>(s: seq<T>) {
    forall i, j :: 0 <= i < j < |s| ==> s[i] != s[j]
  }

  /** A dict: its keys in insertion order, and the value each key maps to. */
  datatype Dict = Dict(order: seq<string>, entries: map<string, string>) {

    /** Every key is listed once, and only keys are listed. */
    ghost predicate Valid() {
      Distinct(order) && (forall k :: k in entries <==> k in order)
    }

    /** `d[k] = v`: an existing key keeps its place, a new key goes last. */
    function Set(k: string, v: string): (r: Dict)
      requires Valid()
      ensures r.Valid()
      ensures r.entries == entries[k := v]
      ensures r.order == if k in entries then order else order + [k]
    {
      if k in entries then Dict(order, entries[k := v]) else Dict(order + [k], entries[k := v])
    }
  }

  /** `{}` */
  function Empty(): (r: Dict)
    ensures r.Valid() && r.entries == map[]
  {
    Dict([], map[])
  }

  /** `{v: k for k, v in items}` where the items are the keys `ks` of `m`, in
      order: every value met maps to a key holding it. */
  function InverseOf(ks: seq<string>, m: map<string, string>): (r: map<string, string>)
    requires forall k :: k in ks ==> k in m
    ensures forall k :: k in ks ==> m[k] in r
    ensures forall v :: v in r ==> r[v] in ks && m[r[v]] == v
    decreases |ks|
  {
    if ks == [] then map[]
    else
      var k := ks[|ks| - 1];
      InverseOf(ks[..|ks| - 1], m)[m[k] := k]
  }

  /** The inversion is last-write-wins: a key that no later key shares its
      value with is the one its value maps back to. */
  lemma {:induction false} InverseLastWins(ks: seq<string>, m: map<string, string>, j: nat)
    requires forall k :: k in ks ==> k in m
    requires j < |ks|
    requires forall i :: j < i < |ks| ==> m[ks[i]] != m[ks[j]]
    ensures InverseOf(ks, m)[m[ks[j]]] == ks[j]
  {
    if j < |ks| - 1 {
      InverseLastWins(ks[..|ks| - 1], m, j);
    }
  }

  /** The inversion of a whole dict. */
  function Inverse(d: Dict): (r: map<string, string>)
    requires d.Valid()
    ensures forall v :: v in r <==> v in d.entries.Values
    ensures forall v :: v in r ==> r[v] in d.entries && d.entries[r[v]] == v
  {
    var r := InverseOf(d.order, d.entries);
    assert forall v :: v in d.entries.Values ==> v in r by {
      forall v | v in d.entries.Values ensures v in r {
        var k :| k in d.entries && d.entries[k] == v;
        assert k in d.order;
      }
    }
    r
  }
}
