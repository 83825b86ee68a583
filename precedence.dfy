/**
 * The two steps that fix which file wins: array_unique over the candidate
 * paths (first occurrence kept), and the key-by-key merge (last file wins).
 */
module Precedence {

  predicate NoDuplicates<T(==)>(s: seq<T>) {
    forall i, j :: 0 <= i < j < |s| ==> s[i] != s[j]
  }

  /** The position of the first occurrence of x in s. */
  function FirstIndex<T(==)>(s: seq<T>, x: T): (i: nat)
    requires x in s
    ensures i < |s| && s[i] == x
    ensures forall j :: 0 <= j < i ==> s[j] != x
  {
    if s[0] == x then 0 else 1 + FirstIndex(s[1..], x)
  }

  /**
   * array_unique on a list of strings: each element is kept at its first
   * occurrence and later repetitions are dropped.
   */
  function Dedup<T(==,!new)>(s: seq<T>): (r: seq<T>)
    ensures NoDuplicates(r)
    ensures forall x :: x in r <==> x in s
  {
    if s == [] then []
    else
      var d := Dedup(s[..|s| - 1]);
      var x := s[|s| - 1];
      if x in d then d else d + [x]
  }

  lemma FirstIndexOfPrefix<T>(p: seq<T>, x: T, y: T)
    requires y in p
    ensures FirstIndex(p + [x], y) == FirstIndex(p, y)
  {
    var k := FirstIndex(p, y);
    assert (p + [x])[k] == y;
  }

  /** The elements array_unique keeps stay in the order of their first occurrences in its input. */
  lemma {:induction false} DedupKeepsFirstOrder<T(!new)>(s: seq<T>)
    ensures forall i, j :: 0 <= i < j < |Dedup(s)| ==> FirstIndex(s, Dedup(s)[i]) < FirstIndex(s, Dedup(s)[j])
  {
    if s != [] {
      var p, x := s[..|s| - 1], s[|s| - 1];
      assert s == p + [x];
      DedupKeepsFirstOrder(p);
      var d := Dedup(p);
      forall y | y in p
        ensures FirstIndex(s, y) == FirstIndex(p, y) < |p|
      {
        FirstIndexOfPrefix(p, x, y);
      }
      if x !in d {
        assert FirstIndex(s, x) == |p|;
      }
    }
  }

  /**
   * No duplicates, the same elements, and first-occurrence order determine a
   * list completely: any list with those three properties is Dedup(s).
   */
  lemma {:induction false} DedupCharacterized<T(!new)>(s: seq<T>, d: seq<T>)
    requires NoDuplicates(d)
    requires forall x :: x in d <==> x in s
    requires forall i, j :: 0 <= i < j < |d| ==> FirstIndex(s, d[i]) < FirstIndex(s, d[j])
    ensures d == Dedup(s)
  {
    DedupKeepsFirstOrder(s);
    SameOrderedSets(s, d, Dedup(s));
  }

  lemma {:induction false} SameOrderedSets<T(!new)>(s: seq<T>, a: seq<T>, b: seq<T>)
    requires NoDuplicates(a) && NoDuplicates(b)
    requires forall x :: x in a ==> x in s
    requires forall x :: x in a <==> x in b
    requires forall i, j :: 0 <= i < j < |a| ==> FirstIndex(s, a[i]) < FirstIndex(s, a[j])
    requires forall i, j :: 0 <= i < j < |b| ==> FirstIndex(s, b[i]) < FirstIndex(s, b[j])
    ensures a == b
    decreases |a|
  {
    assert b != [] ==> b[0] in b;
    if a != [] {
      assert b != [] by { assert a[0] in b; }
      assert a[0] == b[0] by {
        assert b[0] in a && a[0] in b;
      }
      forall x
        ensures x in a[1..] <==> x in b[1..]
      {
        if x in a[1..] {
          var i :| 1 <= i < |a| && a[i] == x;
          assert x != a[0];
          assert x in b;
        }
        if x in b[1..] {
          var i :| 1 <= i < |b| && b[i] == x;
          assert x != b[0];
          assert x in a;
        }
      }
      SameOrderedSets(s, a[1..], b[1..]);
      assert a == [a[0]] + a[1..] && b == [b[0]] + b[1..];
    }
  }

  /** s with every occurrence of x removed, the other elements in their order. */
  function Without<T(==,!new)>(s: seq<T>, x: T): (r: seq<T>)
    ensures forall y :: y in r <==> y in s && y != x
    ensures x !in s ==> r == s
  {
    if s == [] then []
    else Without(s[..|s| - 1], x) + if s[|s| - 1] == x then [] else [s[|s| - 1]]
  }

  /** A list without repetitions is left as it is by array_unique. */
  lemma {:induction false} DedupNoDuplicates<T(!new)>(s: seq<T>)
    requires NoDuplicates(s)
    ensures Dedup(s) == s
  {
    if s != [] {
      var init, x := s[..|s| - 1], s[|s| - 1];
      DedupNoDuplicates(init);
      assert x !in init;
      assert s == init + [x];
    }
  }

  /**
   * Putting x in front of a list without repetitions: array_unique keeps x
   * first and drops its later occurrence, the rest keeping their order.
   */
  lemma {:induction false} DedupMovedFront<T(!new)>(x: T, s: seq<T>)
    requires NoDuplicates(s)
    ensures Dedup([x] + s) == [x] + Without(s, x)
  {
    if s == [] {
      assert [x] + s == [x];
      assert Dedup([x]) == Dedup([]) + [x];
    } else {
      var init, y := s[..|s| - 1], s[|s| - 1];
      var c := [x] + s;
      DedupMovedFront(x, init);
      var d := Dedup([x] + init);
      assert Dedup(c) == if y in d then d else d + [y] by {
        assert c[..|c| - 1] == [x] + init && c[|c| - 1] == y;
      }
      assert y in d <==> y == x by {
        assert y !in init;
        assert y !in Without(init, x);
      }
      assert Without(s, x) == Without(init, x) + if y == x then [] else [y];
    }
  }

  /** Map i is the last of ms that holds key k. */
  ghost predicate LastHolder<K, V>(ms: seq<map<K, V>>, k: K, i: int) {
    0 <= i < |ms| && k in ms[i] && forall j :: i < j < |ms| ==> k !in ms[j]
  }

  /**
   * The merge: every map's entries are assigned in turn into one accumulator,
   * starting from the empty map, so a later map overwrites an earlier one.
   */
  function MergeAll<K, V>(ms: seq<map<K, V>>): map<K, V> {
    if ms == [] then map[] else MergeAll(ms[..|ms| - 1]) + ms[|ms| - 1]
  }

  /** The merged keys are exactly the keys of all the maps. */
  lemma {:induction false} MergeAllKeys<K, V>(ms: seq<map<K, V>>, k: K)
    ensures k in MergeAll(ms) <==> exists i :: 0 <= i < |ms| && k in ms[i]
  {
    if ms != [] {
      var init := ms[..|ms| - 1];
      MergeAllKeys(init, k);
      if k in MergeAll(init) {
        var i :| 0 <= i < |init| && k in init[i];
        assert k in ms[i];
      }
    }
  }

  /** Last writer wins: a key takes its value from the last map that holds it. */
  lemma {:induction false} MergeAllLastWins<K, V>(ms: seq<map<K, V>>, k: K, i: int)
    requires LastHolder(ms, k, i)
    ensures k in MergeAll(ms) && MergeAll(ms)[k] == ms[i][k]
  {
    var init := ms[..|ms| - 1];
    if i < |ms| - 1 {
      assert LastHolder(init, k, i);
      MergeAllLastWins(init, k, i);
    }
  }

  /** Every merged key has a last holder, and its merged value is the value in that map. */
  lemma LastHolderExists<K, V>(ms: seq<map<K, V>>, k: K)
    requires k in MergeAll(ms)
    ensures exists i :: LastHolder(ms, k, i) && MergeAll(ms)[k] == ms[i][k]
  {
    MergeAllKeys(ms, k);
    var i :| 0 <= i < |ms| && k in ms[i];
    while exists j :: i < j < |ms| && k in ms[j]
      invariant 0 <= i < |ms| && k in ms[i]
      decreases |ms| - i
    {
      var j :| i < j < |ms| && k in ms[j];
      i := j;
    }
    MergeAllLastWins(ms, k, i);
  }
}
