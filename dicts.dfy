/**
 * Python's `dict` as the reconciliation code relies on it: a finite map
 * that also remembers the order in which its keys were first inserted.
 * Overwriting an existing key keeps its position; `pop` removes it;
 * `update` writes the other dict's entries in the other dict's order.
 */
module Dicts {

  /** No element occurs twice. */
  predicate Distinct<K(==, !new)>(s: seq<K>) {
    forall i, j :: 0 <= i < j < |s| ==> s[i] != s[j]
  }

  /** The elements of `s` that are not in `gone`, in their original order. */
  function Drop<K(==, !new)>(s: seq<K>, gone: set<K>): (r: seq<K>)
    ensures forall x :: x in r <==> x in s && x !in gone
  {
    if s == [] then []
    else
      assert s == [s[0]] + s[1..];
      if s[0] in gone then Drop(s[1..], gone)
      else [s[0]] + Drop(s[1..], gone)
  }

  lemma {:induction false} DropDistinct<K(!new)>(s: seq<K>, gone: set<K>)
    requires Distinct(s)
    ensures Distinct(Drop(s, gone))
  {
    if s != [] {
      assert Distinct(s[1..]) by {
        forall i, j | 0 <= i < j < |s[1..]| ensures s[1..][i] != s[1..][j] {
          assert s[1..][i] == s[i + 1] && s[1..][j] == s[j + 1];
        }
      }
      DropDistinct(s[1..], gone);
      assert s[0] !in s[1..] by {
        forall i | 0 <= i < |s[1..]| ensures s[1..][i] != s[0] {
          assert s[1..][i] == s[i + 1];
        }
      }
    }
  }

  lemma {:induction false} DropTwice<K(!new)>(s: seq<K>, a: set<K>, b: set<K>)
    ensures Drop(Drop(s, a), b) == Drop(s, a + b)
  {
    if s != [] {
      DropTwice(s[1..], a, b);
    }
  }

  lemma {:induction false} DropNothing<K(!new)>(s: seq<K>, gone: set<K>)
    requires forall x :: x in s ==> x !in gone
    ensures Drop(s, gone) == s
  {
    if s != [] {
      DropNothing(s[1..], gone);
    }
  }

  /** Dropping keeps the survivors in their relative order. */
  lemma {:induction false} DropKeepsOrder<K(!new)>(s: seq<K>, gone: set<K>, i: int, j: int)
    requires 0 <= i < j < |s| && s[i] !in gone && s[j] !in gone
    ensures exists p, q :: 0 <= p < q < |Drop(s, gone)| && Drop(s, gone)[p] == s[i] && Drop(s, gone)[q] == s[j]
  {
    var rest := Drop(s[1..], gone);
    if i == 0 {
      assert s[j] in rest by { assert s[1..][j - 1] == s[j]; }
      var q' :| 0 <= q' < |rest| && rest[q'] == s[j];
      assert Drop(s, gone)[0] == s[i] && Drop(s, gone)[q' + 1] == s[j];
    } else {
      DropKeepsOrder(s[1..], gone, i - 1, j - 1);
      var p', q' :| 0 <= p' < q' < |rest| && rest[p'] == s[1..][i - 1] && rest[q'] == s[1..][j - 1];
      if s[0] in gone {
        assert Drop(s, gone)[p'] == s[i] && Drop(s, gone)[q'] == s[j];
      } else {
        assert Drop(s, gone)[p' + 1] == s[i] && Drop(s, gone)[q' + 1] == s[j];
      }
    }
  }

  lemma {:induction false} DropAppend<K(!new)>(s: seq<K>, t: seq<K>, gone: set<K>)
    ensures Drop(s + t, gone) == Drop(s, gone) + Drop(t, gone)
  {
    if s == [] {
      assert s + t == t;
    } else {
      assert (s + t)[1..] == s[1..] + t;
      DropAppend(s[1..], t, gone);
    }
  }

  /** An insertion-ordered dictionary: `order` lists the keys once each, oldest first. */
  datatype Dict<K(==, !new), V> = Dict(order: seq<K>, entries: map<K, V>) {

    /** The keys listed in `order` are exactly the keys of `entries`, each once. */
    predicate Valid() {
      && Distinct(order)
      && (forall k :: k in entries ==> k in order)
      && (forall k :: k in order ==> k in entries)
    }
  }

  function Empty<K(==, !new), V>(): (d: Dict<K, V>)
    ensures d.Valid() && d.entries == map[] && d.order == []
  {
    Dict([], map[])
  }

  /** `d[k] = v`: a new key goes to the end, an existing key keeps its place and takes the new value. */
  function Put<K(==, !new), V>(d: Dict<K, V>, k: K, v: V): (r: Dict<K, V>)
    requires d.Valid()
    ensures r.Valid()
    ensures r.entries == d.entries[k := v]
    ensures r.order == if k in d.entries then d.order else d.order + [k]
  {
    if k in d.entries then Dict(d.order, d.entries[k := v])
    else
      var r := Dict(d.order + [k], d.entries[k := v]);
      assert Distinct(r.order) by {
        forall i, j | 0 <= i < j < |r.order| ensures r.order[i] != r.order[j] {
          if j == |d.order| { assert r.order[i] == d.order[i]; }
        }
      }
      r
  }

  /** The dictionary without the keys in `gone`, the others keeping their order. */
  function Without<K(==, !new), V>(d: Dict<K, V>, gone: set<K>): (r: Dict<K, V>)
    requires d.Valid()
    ensures r.Valid()
    ensures r.entries.Keys == d.entries.Keys - gone
    ensures forall k :: k in r.entries ==> r.entries[k] == d.entries[k]
    ensures r.order == Drop(d.order, gone)
  {
    DropDistinct(d.order, gone);
    Dict(Drop(d.order, gone), d.entries - gone)
  }

  /** `d.pop(k)` for a key that is present. */
  function Pop<K(==, !new), V>(d: Dict<K, V>, k: K): (r: Dict<K, V>)
    requires d.Valid() && k in d.entries
    ensures r.Valid()
    ensures r.entries.Keys == d.entries.Keys - {k}
    ensures forall j :: j in r.entries ==> r.entries[j] == d.entries[j]
    ensures |r.order| == |d.order| - 1
    ensures r.order == Drop(d.order, {k})
  {
    var r := Without(d, {k});
    assert |r.entries.Keys| == |d.entries.Keys| - 1;
    DistinctCard(d.order, d.entries.Keys);
    DistinctCard(r.order, r.entries.Keys);
    r
  }

  lemma {:induction false} DistinctCard<K(!new)>(s: seq<K>, keys: set<K>)
    requires Distinct(s) && forall k :: k in keys <==> k in s
    ensures |keys| == |s|
  {
    if s != [] {
      var rest := s[1..];
      assert Distinct(rest) by {
        forall i, j | 0 <= i < j < |rest| ensures rest[i] != rest[j] {
          assert rest[i] == s[i + 1] && rest[j] == s[j + 1];
        }
      }
      assert s[0] !in rest by {
        forall i | 0 <= i < |rest| ensures rest[i] != s[0] {
          assert rest[i] == s[i + 1];
        }
      }
      assert forall k :: k in keys - {s[0]} <==> k in rest by {
        forall k ensures k in keys - {s[0]} <==> k in rest {
          assert k in s <==> k == s[0] || k in rest by {
            assert s == [s[0]] + rest;
          }
        }
      }
      DistinctCard(rest, keys - {s[0]});
    } else {
      assert keys == {} by {
        forall k | k in keys ensures false { }
      }
    }
  }

  /** Removing one more key after some are already gone. */
  lemma PopWithout<K(!new), V>(d: Dict<K, V>, gone: set<K>, k: K)
    requires d.Valid() && k in Without(d, gone).entries
    ensures Pop(Without(d, gone), k) == Without(d, gone + {k})
  {
    DropTwice(d.order, gone, {k});
  }

  /** Removing a key that is already gone changes nothing. */
  lemma WithoutAbsent<K(!new), V>(d: Dict<K, V>, gone: set<K>, k: K)
    requires d.Valid() && k !in Without(d, gone).entries
    ensures Without(d, gone + {k}) == Without(d, gone)
  {
    DropTwice(d.order, gone, {k});
    DropNothing(Drop(d.order, gone), {k});
    assert d.entries - (gone + {k}) == d.entries - gone;
  }

  lemma WithoutNothing<K(!new), V>(d: Dict<K, V>)
    requires d.Valid()
    ensures Without(d, {}) == d
  {
    DropNothing(d.order, {});
  }

  /** Two duplicate-free sequences with no common element concatenate to a duplicate-free one. */
  lemma DistinctConcat<K(!new)>(s: seq<K>, t: seq<K>)
    requires Distinct(s) && Distinct(t)
    requires forall x :: x in t ==> x !in s
    ensures Distinct(s + t)
  {
    forall i, j | 0 <= i < j < |s + t| ensures (s + t)[i] != (s + t)[j] {
      if j < |s| {
        assert (s + t)[i] == s[i] && (s + t)[j] == s[j];
      } else if i < |s| {
        assert (s + t)[i] == s[i] && (s + t)[j] == t[j - |s|];
        assert t[j - |s|] in t;
      } else {
        assert (s + t)[i] == t[i - |s|] && (s + t)[j] == t[j - |s|];
      }
    }
  }

  /**
   * `d.update(e)`: the keys of either; wherever `e` has the key its value wins;
   * keys new to `d` are appended in `e`'s order, keys already in `d` keep their place.
   */
  function Update<K(==, !new), V>(d: Dict<K, V>, e: Dict<K, V>): (r: Dict<K, V>)
    ensures d.Valid() && e.Valid() ==> r.Valid()
    ensures r.entries.Keys == d.entries.Keys + e.entries.Keys
    ensures forall k :: k in e.entries ==> r.entries[k] == e.entries[k]
    ensures forall k :: k in d.entries && k !in e.entries ==> r.entries[k] == d.entries[k]
    ensures r.order == d.order + Drop(e.order, d.entries.Keys)
  {
    var added := Drop(e.order, d.entries.Keys);
    var r := Dict(d.order + added, d.entries + e.entries);
    assert d.Valid() && e.Valid() ==> r.Valid() by {
      if d.Valid() && e.Valid() {
        DropDistinct(e.order, d.entries.Keys);
        DistinctConcat(d.order, added);
      }
    }
    r
  }

  /** The values in insertion order (`d.values()`). */
  function Values<K(==, !new), V>(d: Dict<K, V>): (vs: seq<V>)
    requires d.Valid()
    ensures |vs| == |d.order|
    ensures forall i :: 0 <= i < |vs| ==> vs[i] == d.entries[d.order[i]]
  {
    seq(|d.order|, i requires 0 <= i < |d.order| => d.entries[d.order[i]])
  }

  /** Concatenation regroups freely. */
  lemma AppendAssociative<T>(a: seq<T>, b: seq<T>, c: seq<T>)
    ensures a + (b + c) == a + b + c
  {
  }

  lemma AppendNothing<T>(a: seq<T>)
    ensures a + [] == a
  {
  }
}
