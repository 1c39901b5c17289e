/**
 * Python's insertion-ordered `dict` with string keys, as the conversion engine
 * uses it: assignment `d[k] = v`, deletion `del d[k]` and `d.update(e)`.
 */
module Dicts {

  /** A metadata value: scalars, arrays and nested tables. */
  datatype Value =
    | Str(s: string)
    | Int(i: int)
    | Bool(b: bool)
    | Array(items: seq<Value>)
    | Table(fields: seq<(string, Value)>)

  /** A dict: its entries, and its keys in insertion order. */
  datatype Dict = Dict(order: seq<string>, entries: map<string, Value>)

  const Empty: Dict := Dict([], map[])

  ghost predicate Distinct(s: seq<string>) {
    forall i, j :: 0 <= i < j < |s| ==> s[i] != s[j]
  }

  /** Every key of the dict is listed exactly once in `order`, and nothing else is. */
  ghost predicate WellFormed(d: Dict) {
    Distinct(d.order) && forall k :: k in d.entries <==> k in d.order
  }

  /** The elements of `s` that are not in `drop`, in their order in `s`. */
  function Drop(s: seq<string>, drop: set<string>): (r: seq<string>)
    ensures forall x :: x in r <==> x in s && x !in drop
    ensures Distinct(s) ==> Distinct(r)
  {
    if s == [] then []
    else
      var rest := Drop(s[1..], drop);
      assert forall x :: x in s[1..] ==> x in s;
      if s[0] !in drop then
        assert Distinct(s) ==> s[0] !in s[1..];
        [s[0]] + rest
      else rest
  }

  /** Drop only looks at the members of `drop` that occur in `s`. */
  lemma {:induction false} DropCongruent(s: seq<string>, a: set<string>, b: set<string>)
    requires forall x :: x in s ==> (x in a <==> x in b)
    ensures Drop(s, a) == Drop(s, b)
  {
    if s != [] {
      assert forall x :: x in s[1..] ==> x in s;
      DropCongruent(s[1..], a, b);
    }
  }

  lemma DistinctTail(s: seq<string>)
    requires Distinct(s) && s != []
    ensures Distinct(s[1..])
    ensures forall x :: x in s[1..] ==> x in s && x != s[0]
  {
  }

  lemma DropFirst(s: seq<string>, drop: set<string>)
    requires s != []
    ensures Drop(s, drop) == (if s[0] in drop then [] else [s[0]]) + Drop(s[1..], drop)
  {
  }

  lemma {:induction false} DropDrop(s: seq<string>, a: set<string>, b: set<string>)
    ensures Drop(Drop(s, a), b) == Drop(s, a + b)
  {
    if s != [] {
      DropDrop(s[1..], a, b);
      if s[0] !in a {
        assert Drop(s, a) == [s[0]] + Drop(s[1..], a);
        assert Drop(s, a)[1..] == Drop(s[1..], a);
      }
    }
  }

  lemma {:induction false} DropNothing(s: seq<string>, drop: set<string>)
    requires forall x :: x in s ==> x !in drop
    ensures Drop(s, drop) == s
  {
    if s != [] {
      assert forall x :: x in s[1..] ==> x in s;
      DropNothing(s[1..], drop);
    }
  }

  lemma {:induction false} DropAppend(s: seq<string>, x: string, drop: set<string>)
    ensures Drop(s + [x], drop) == Drop(s, drop) + (if x !in drop then [x] else [])
  {
    if s == [] {
      assert [x][1..] == [];
    } else {
      assert (s + [x])[1..] == s[1..] + [x];
      DropAppend(s[1..], x, drop);
    }
  }

  /** `d[k] = v`: a new key goes to the end, an existing key keeps its place. */
  function Set(d: Dict, k: string, v: Value): (r: Dict)
    ensures WellFormed(d) ==> WellFormed(r)
    ensures k in r.entries && r.entries[k] == v && r.entries.Keys == d.entries.Keys + {k}
    ensures r.entries == d.entries[k := v]
    ensures d.order <= r.order && |r.order| <= |d.order| + 1
  {
    if k in d.entries then Dict(d.order, d.entries[k := v])
    else Dict(d.order + [k], d.entries[k := v])
  }

  /** `d` after `del d[k]` for every key `k` of `drop` that is present. */
  function Without(d: Dict, drop: set<string>): (r: Dict)
    requires WellFormed(d)
    ensures WellFormed(r)
    ensures r.entries == d.entries - drop
    ensures r.order == Drop(d.order, drop)
  {
    Dict(Drop(d.order, drop), d.entries - drop)
  }

  /** Deleting two sets of keys one after the other deletes their union. */
  lemma WithoutTwice(d: Dict, a: set<string>, b: set<string>)
    requires WellFormed(d)
    ensures Without(Without(d, a), b) == Without(d, a + b)
  {
    DropDrop(d.order, a, b);
  }

  /** Deleting keys that are absent leaves the dict as it was. */
  lemma WithoutAbsent(d: Dict, drop: set<string>)
    requires WellFormed(d) && d.entries.Keys !! drop
    ensures Without(d, drop) == d
  {
    DropNothing(d.order, drop);
  }

  /** `d[k] = m[k]` for each `k` of `ks` in turn. */
  function Merge(d: Dict, ks: seq<string>, m: map<string, Value>): Dict
    decreases |ks|
  {
    if ks == [] then d
    else if ks[0] in m then Merge(Set(d, ks[0], m[ks[0]]), ks[1..], m)
    else Merge(d, ks[1..], m)
  }

  lemma {:induction false} MergeWellFormed(d: Dict, ks: seq<string>, m: map<string, Value>)
    requires WellFormed(d)
    ensures WellFormed(Merge(d, ks, m))
    decreases |ks|
  {
    if ks != [] {
      if ks[0] in m {
        MergeWellFormed(Set(d, ks[0], m[ks[0]]), ks[1..], m);
      } else {
        MergeWellFormed(d, ks[1..], m);
      }
    }
  }

  /** After the merge a key is present iff it was in `d` or in `ks`; a key of `ks` holds `m`'s value. */
  lemma {:induction false} MergeEntries(d: Dict, ks: seq<string>, m: map<string, Value>)
    requires forall k :: k in ks ==> k in m
    ensures forall k :: k in Merge(d, ks, m).entries <==> k in d.entries || k in ks
    ensures forall k :: k in ks ==> Merge(d, ks, m).entries[k] == m[k]
    ensures forall k :: k in d.entries && k !in ks ==> Merge(d, ks, m).entries[k] == d.entries[k]
    decreases |ks|
  {
    if ks != [] {
      assert forall k :: k in ks[1..] ==> k in ks;
      assert forall k :: k in ks ==> k == ks[0] || k in ks[1..];
      MergeEntries(Set(d, ks[0], m[ks[0]]), ks[1..], m);
    }
  }

  /** The merge appends the new keys of `ks`, in their order, and moves no key `d` had. */
  lemma {:induction false} MergeOrder(d: Dict, ks: seq<string>, m: map<string, Value>)
    requires Distinct(ks) && forall k :: k in ks ==> k in m
    ensures Merge(d, ks, m).order == d.order + Drop(ks, d.entries.Keys)
    decreases |ks|
  {
    if ks != [] {
      var next := Set(d, ks[0], m[ks[0]]);
      var rest := ks[1..];
      DistinctTail(ks);
      MergeOrder(next, rest, m);
      forall x | x in rest ensures x in next.entries.Keys <==> x in d.entries.Keys {
        assert x != ks[0];
      }
      DropCongruent(rest, next.entries.Keys, d.entries.Keys);
      DropFirst(ks, d.entries.Keys);
      SetOrder(d, ks[0], m[ks[0]], Drop(rest, d.entries.Keys));
    }
  }

  lemma SetOrder(d: Dict, k: string, v: Value, later: seq<string>)
    ensures Set(d, k, v).order + later == d.order + ((if k in d.entries then [] else [k]) + later)
  {
    if k !in d.entries {
      assert (d.order + [k]) + later == d.order + ([k] + later);
    }
  }

  /**
   * `d.update(e)`: every entry of `e` overrides `d`; the keys of `e` that `d`
   * lacks are appended in `e`'s order, and the keys `d` had keep their places.
   */
  function Update(d: Dict, e: Dict): (r: Dict)
    requires WellFormed(d) && WellFormed(e)
    ensures WellFormed(r)
    ensures r.entries == d.entries + e.entries
    ensures r.order == d.order + Drop(e.order, d.entries.Keys)
  {
    MergeWellFormed(d, e.order, e.entries);
    MergeOverrides(d, e);
    MergeOrder(d, e.order, e.entries);
    Merge(d, e.order, e.entries)
  }

  /** Merging all of `e`, key by key in `e`'s order, gives `e`'s entries precedence over `d`'s. */
  lemma MergeOverrides(d: Dict, e: Dict)
    requires WellFormed(e)
    ensures Merge(d, e.order, e.entries).entries == d.entries + e.entries
  {
    MergeEntries(d, e.order, e.entries);
    var r := Merge(d, e.order, e.entries).entries;
    forall k | k in r ensures k in d.entries + e.entries && r[k] == (d.entries + e.entries)[k] {
      assert k in e.entries <==> k in e.order;
    }
    assert r.Keys == (d.entries + e.entries).Keys;
  }
}
