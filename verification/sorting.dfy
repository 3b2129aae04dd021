/** Ordering query results by an integer sort key, the way the store's
    `sort({ field: 1 })` does. Records with equal keys may come out in any
    order, as they may from the store. */
module Sorting {

  /** `s` is in ascending order of `key`. */
  predicate SortedBy<T>(s: seq<T>, key: T -> int)
  {
    forall i, j :: 0 <= i < j < |s| ==> key(s[i]) <= key(s[j])
  }

  /** Inserts `x` into the sorted sequence `s`, keeping it sorted and losing
      nothing. */
  function InsertBy<T>(x: T, s: seq<T>, key: T -> int): (r: seq<T>)
    requires SortedBy(s, key)
    ensures SortedBy(r, key)
    ensures multiset(r) == multiset(s) + multiset{x}
    ensures forall i :: 0 <= i < |r| ==> r[i] == x || r[i] in s
    decreases |s|
  {
    if |s| == 0 then [x]
    else if key(x) <= key(s[0]) then [x] + s
    else
      var rest := InsertBy(x, s[1..], key);
      assert s == [s[0]] + s[1..];
      HeadBelow(s[0], rest, key);
      [s[0]] + rest
  }

  /** Prepending an element no larger than anything in a sorted sequence
      keeps it sorted. */
  lemma HeadBelow<T>(h: T, s: seq<T>, key: T -> int)
    requires SortedBy(s, key)
    requires forall y :: y in s ==> key(h) <= key(y)
    ensures SortedBy([h] + s, key)
  {
    var t := [h] + s;
    forall i, j | 0 <= i < j < |t|
      ensures key(t[i]) <= key(t[j])
    {
      assert t[j] == s[j - 1];
      if i > 0 {
        assert t[i] == s[i - 1];
      }
    }
  }

  /** Lists every element of `xs` exactly once, in ascending order of `key`. */
  method SortBy<T>(xs: set<T>, key: T -> int) returns (s: seq<T>)
    ensures SortedBy(s, key)
    ensures multiset(s) == multiset(xs)
  {
    s := [];
    var rest := xs;
    while rest != {}
      invariant rest <= xs
      invariant SortedBy(s, key)
      invariant multiset(s) + multiset(rest) == multiset(xs)
      decreases rest
    {
      var x :| x in rest;
      assert multiset(rest) == multiset(rest - {x}) + multiset{x};
      s := InsertBy(x, s, key);
      rest := rest - {x};
    }
  }

  /** A sequence whose multiset is that of a set holds each member of the set
      exactly once and nothing else. */
  lemma ExactlyOnce<T>(s: seq<T>, xs: set<T>)
    requires multiset(s) == multiset(xs)
    ensures forall x :: x in s <==> x in xs
    ensures forall i, j :: 0 <= i < j < |s| ==> s[i] != s[j]
  {
    forall x
      ensures x in s <==> x in xs
    {
      assert x in s <==> x in multiset(s);
      assert x in xs <==> x in multiset(xs);
    }
    forall i, j | 0 <= i < j < |s|
      ensures s[i] != s[j]
    {
      if s[i] == s[j] {
        RepeatCounted(s, i, j);
        assert false;
      }
    }
  }

  /** An element found at two positions occurs at least twice. */
  lemma RepeatCounted<T>(s: seq<T>, i: nat, j: nat)
    requires i < j < |s| && s[i] == s[j]
    ensures multiset(s)[s[i]] >= 2
  {
    assert s == s[..i] + [s[i]] + s[i+1..j] + [s[j]] + s[j+1..];
  }

  /** A store query: the entries of `m` whose record satisfies `keep`, each
      exactly once, in ascending order of `key`. */
  method Query<K, V(==)>(m: map<K, V>, keep: V -> bool, key: V -> int) returns (entries: seq<(K, V)>)
    ensures forall i :: 0 <= i < |entries| ==>
      entries[i].0 in m && m[entries[i].0] == entries[i].1 && keep(entries[i].1)
    ensures forall k :: k in m && keep(m[k]) ==> (k, m[k]) in entries
    ensures forall i, j :: 0 <= i < j < |entries| ==> entries[i].0 != entries[j].0
    ensures forall i, j :: 0 <= i < j < |entries| ==> key(entries[i].1) <= key(entries[j].1)
  {
    var matching := set k | k in m && keep(m[k]) :: (k, m[k]);
    entries := SortBy(matching, (e: (K, V)) => key(e.1));
    ExactlyOnce(entries, matching);
    forall i | 0 <= i < |entries|
      ensures entries[i].0 in m && m[entries[i].0] == entries[i].1 && keep(entries[i].1)
    {
      assert entries[i] in matching;
    }
    forall i, j | 0 <= i < j < |entries|
      ensures key(entries[i].1) <= key(entries[j].1)
    {
      assert SortedBy(entries, (e: (K, V)) => key(e.1));
    }
  }
}
