/** The key order of an `OrderedDict`: least recently used first. */
module Lru {

  function Keep<K(==,!new)>(order: seq<K>, gone: set<K>): (r: seq<K>)
    ensures forall x :: x in r <==> x in order && x !in gone
    ensures |r| <= |order|
  {
    if order == [] then []
    else if order[0] in gone then Keep(order[1..], gone)
    else [order[0]] + Keep(order[1..], gone)
  }

  /** What is kept stays in order. */
  lemma {:induction false} KeepConcat<K(!new)>(a: seq<K>, b: seq<K>, gone: set<K>)
    ensures Keep(a + b, gone) == Keep(a, gone) + Keep(b, gone)
    decreases |a|
  {
    if a == [] {
      assert a + b == b;
    } else {
      assert (a + b)[1..] == a[1..] + b;
      KeepConcat(a[1..], b, gone);
    }
  }

  /** Dropping one key takes it out of its place and leaves the others in theirs. */
  lemma KeepOut<K(!new)>(order: seq<K>, i: nat)
    requires i < |order| && NoDup(order)
    ensures Keep(order, {order[i]}) == order[..i] + order[i + 1..]
  {
    var a, k, b := order[..i], order[i], order[i + 1..];
    assert order == a + [k] + b;
    assert k !in a && k !in b;
    KeepAround(a, k, b);
  }

  lemma KeepAround<K(!new)>(a: seq<K>, k: K, b: seq<K>)
    requires k !in a && k !in b
    ensures Keep(a + [k] + b, {k}) == a + b
  {
    KeepConcat(a + [k], b, {k});
    KeepConcat(a, [k], {k});
    KeepAbsent(a, k);
    KeepAbsent(b, k);
    assert Keep([k], {k}) == [];
    assert a + [] == a;
  }

  predicate NoDup<K(==)>(order: seq<K>) {
    forall i, j :: 0 <= i < j < |order| ==> order[i] != order[j]
  }

  lemma TailOf<K>(order: seq<K>, n: nat)
    requires 0 < n <= |order|
    ensures order[n..] == order[1..][n - 1..]
  {}

  lemma PartsApart<K(!new)>(order: seq<K>, n: nat, k: K)
    requires NoDup(order) && n <= |order|
    ensures k in order[n..] <==> k in order && k !in order[..n]
  {
    assert order == order[..n] + order[n..];
    if i, j :| 0 <= i < n && n <= j < |order| && order[i] == k && order[j] == k {
      assert false;
    }
  }

  lemma PartsRanked<K(!new)>(order: seq<K>, n: nat, rank: K -> int, a: K, b: K)
    requires SortedBy(order, rank) && n <= |order| && a in order[..n] && b in order[n..]
    ensures rank(a) < rank(b)
  {
    var i :| 0 <= i < n && order[..n][i] == a;
    var j :| 0 <= j < |order| - n && order[n..][j] == b;
    assert rank(order[i]) < rank(order[n + j]);
  }

  predicate SortedBy<K(==)>(order: seq<K>, rank: K -> int) {
    forall i, j :: 0 <= i < j < |order| ==> rank(order[i]) < rank(order[j])
  }

  lemma {:induction false} KeepSorted<K(!new)>(order: seq<K>, gone: set<K>, rank: K -> int)
    requires SortedBy(order, rank)
    ensures SortedBy(Keep(order, gone), rank)
  {
    if order != [] {
      var rest := order[1..];
      KeepSorted(rest, gone, rank);
      forall k | k in Keep(rest, gone) ensures rank(order[0]) < rank(k) {
        assert k in rest;
      }
    }
  }

  lemma {:induction false} KeepNoDup<K(!new)>(order: seq<K>, gone: set<K>)
    requires NoDup(order)
    ensures NoDup(Keep(order, gone))
  {
    if order != [] {
      assert order[0] !in order[1..];
      KeepNoDup(order[1..], gone);
    }
  }

  lemma {:induction false} KeepShorter<K(!new)>(order: seq<K>, k: K)
    requires k in order
    ensures |Keep(order, {k})| < |order|
  {
    if order[0] != k {
      KeepShorter(order[1..], k);
    }
  }

  lemma {:induction false} KeepTwice<K(!new)>(order: seq<K>, a: set<K>, b: set<K>)
    ensures Keep(Keep(order, a), b) == Keep(order, a + b)
  {
    if order != [] {
      KeepTwice(order[1..], a, b);
      if order[0] !in a {
        assert Keep(order, a)[1..] == Keep(order[1..], a);
      }
    }
  }

  lemma {:induction false} KeepAll<K(!new)>(order: seq<K>)
    ensures Keep(order, {}) == order
  {
    if order != [] {
      KeepAll(order[1..]);
    }
  }

  lemma {:induction false} KeepAbsent<K(!new)>(order: seq<K>, k: K)
    requires k !in order
    ensures Keep(order, {k}) == order
  {
    if order != [] {
      KeepAbsent(order[1..], k);
    }
  }
}
