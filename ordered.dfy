/**
 * Both dictionaries are keyed by identifier strings.
 * Python dictionaries remember the order in which keys were first inserted, and
 * both services iterate over their dictionary's values in that order. A
 * dictionary is modelled as a `map` together with the sequence of its keys in
 * insertion order; list comprehensions over its values become `Filter`.
 */
module Ordered {

  predicate NoDup<T(==)>(s: seq<T>) {
    forall i, j :: 0 <= i < j < |s| ==> s[i] != s[j]
  }

  /** `order` lists every key of `m` exactly once. */
  ghost predicate KeysInOrder<V>(order: seq<string>, m: map<string, V>) {
    NoDup(order) && forall k :: k in m <==> k in order
  }

  /** `m.values()` in iteration order. */
  function ValuesInOrder<V>(order: seq<string>, m: map<string, V>): (vs: seq<V>)
    requires forall k :: k in order ==> k in m
    ensures |vs| == |order|
    ensures forall i :: 0 <= i < |order| ==> vs[i] == m[order[i]]
  {
    seq(|order|, i requires 0 <= i < |order| => m[order[i]])
  }

  /** Iterating over the keys in order visits exactly the values of the map. */
  lemma ValuesInOrderAreValues<V>(order: seq<string>, m: map<string, V>)
    requires KeysInOrder(order, m)
    ensures forall v :: v in ValuesInOrder(order, m) <==> v in m.Values
  {
    var vs := ValuesInOrder(order, m);
    forall v | v in m.Values ensures v in vs {
      var k :| k in m && m[k] == v;
      var i :| 0 <= i < |order| && order[i] == k;
      assert vs[i] == v;
    }
  }

  /** `d[k] = v`: a new key goes to the end, an existing one keeps its place. */
  lemma PutKeepsKeysInOrder<V>(order: seq<string>, m: map<string, V>, k: string, v: V)
    requires KeysInOrder(order, m)
    ensures KeysInOrder(if k in m then order else order + [k], m[k := v])
  {
    if k !in m {
      var order' := order + [k];
      forall i, j | 0 <= i < j < |order'| ensures order'[i] != order'[j] {
        if j == |order| {
          assert order'[i] == order[i] && order[i] in m;
        }
      }
    }
  }

  /** `order` after `del d[k]`: `k` leaves, everything else keeps its place. */
  function RemoveKey(s: seq<string>, k: string): (r: seq<string>)
    ensures forall x :: x in r <==> x in s && x != k
    ensures NoDup(s) ==> NoDup(r)
    ensures k !in s ==> r == s
  {
    if s == [] then []
    else if s[0] == k then RemoveKey(s[1..], k)
    else
      var r := [s[0]] + RemoveKey(s[1..], k);
      assert NoDup(s) ==> s[0] !in s[1..];
      r
  }

  /** The first element of distinct elements does not recur in the rest, and
      the rest is distinct. */
  lemma NoDupTail<T>(s: seq<T>)
    requires NoDup(s) && s != []
    ensures s[0] !in s[1..] && NoDup(s[1..])
  {
    forall j | 0 <= j < |s| - 1 ensures s[1..][j] != s[0] {
      assert s[1..][j] == s[j + 1];
    }
  }

  /** Removing a key from the sequence of distinct keys that starts with it
      leaves the rest. */
  lemma RemoveKeyHead(s: seq<string>, k: string)
    requires NoDup(s) && s != [] && s[0] == k
    ensures RemoveKey(s, k) == s[1..]
  {
    NoDupTail(s);
  }

  /** A position `i > 0` of `s` is position `i - 1` of its tail, and the parts
      around it split the same way. */
  lemma SplitAroundTail(s: seq<string>, i: int)
    requires 0 < i < |s|
    ensures s[..i] + s[i + 1..] == [s[0]] + (s[1..][..i - 1] + s[1..][i..])
  {
    assert s[..i] == [s[0]] + s[1..][..i - 1];
    assert s[i + 1..] == s[1..][i..];
  }

  /** `del` keeps the order of the other keys: removing the key at position `i`
      of a key sequence leaves what comes before it and what comes after it. */
  lemma {:induction false} RemoveKeyKeepsOrder(s: seq<string>, k: string, i: int)
    requires NoDup(s) && 0 <= i < |s| && s[i] == k
    ensures RemoveKey(s, k) == s[..i] + s[i + 1..]
  {
    if i == 0 {
      RemoveKeyHead(s, k);
      assert s[..0] + s[1..] == s[1..];
    } else {
      NoDupTail(s);
      assert s[0] != s[i];
      RemoveKeyKeepsOrder(s[1..], k, i - 1);
      SplitAroundTail(s, i);
    }
  }

  /** `[x for x in s if p(x)]`: a sub-multiset of `s` whose elements all pass
      `p`, and which keeps every element of `s` that passes. */
  function Filter<T(==)>(s: seq<T>, p: T -> bool): (r: seq<T>)
    ensures multiset(r) <= multiset(s)
    ensures forall i :: 0 <= i < |r| ==> p(r[i])
    ensures forall i :: 0 <= i < |s| && p(s[i]) ==> s[i] in r
  {
    if s == [] then []
    else
      assert s == [s[0]] + s[1..];
      (if p(s[0]) then [s[0]] else []) + Filter(s[1..], p)
  }

  /** Putting an element that is not there in front of distinct elements keeps
      them distinct. */
  lemma PrependNoDup<T>(a: T, s: seq<T>)
    requires a !in s && NoDup(s)
    ensures NoDup([a] + s)
  {
    var t := [a] + s;
    forall i, j | 0 <= i < j < |t| ensures t[i] != t[j] {
      assert t[j] == s[j - 1];
      if i > 0 {
        assert t[i] == s[i - 1];
      }
    }
  }

  /** Filtering distinct elements gives distinct elements. */
  lemma {:induction false} FilterNoDup<T>(s: seq<T>, p: T -> bool)
    requires NoDup(s)
    ensures NoDup(Filter(s, p))
  {
    if s != [] {
      var rest := Filter(s[1..], p);
      FilterNoDup(s[1..], p);
      assert s == [s[0]] + s[1..];
      if p(s[0]) {
        assert s[0] !in multiset(s[1..]);
        assert s[0] !in multiset(rest);
        PrependNoDup(s[0], rest);
      } else {
        assert Filter(s, p) == rest;
      }
    }
  }
}
