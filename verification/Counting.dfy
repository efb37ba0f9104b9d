/** Counting and the values of maps, for the invariants of the protocols. */
module Counting {

  ghost predicate Distinct(q: seq<nat>) {
    forall i, j :: 0 <= i < j < |q| ==> q[i] != q[j]
  }

  function Count(b: bool): nat {
    if b then 1 else 0
  }

  function Size(a: set<nat>): nat {
    |a|
  }

  lemma SizeMoves(a: set<nat>, x: nat)
    ensures Size(a + {x}) == Size(a) + Count(x !in a)
    ensures Size(a - {x}) == Size(a) - Count(x in a)
  {
    if x in a {
      assert a == (a - {x}) + {x};
      assert a + {x} == a;
    } else {
      assert a - {x} == a;
    }
  }

  lemma Plus(a: set<nat>, x: nat)
    requires x !in a
    ensures Size(a + {x}) == Size(a) + 1
  {
    SizeMoves(a, x);
  }

  lemma Minus(a: set<nat>, x: nat)
    requires x in a
    ensures Size(a - {x}) == Size(a) - 1
  {
    SizeMoves(a, x);
  }

  /** No value is there twice. */
  ghost predicate Injective<K(!new), V>(m: map<K, V>) {
    forall j, k :: j in m && k in m && j != k ==> m[j] != m[k]
  }

  lemma ValuesPlus<K(!new), V>(m: map<K, V>, k: K, v: V)
    requires k !in m
    ensures m[k := v].Values == m.Values + {v}
    ensures forall j :: j in m ==> m[j] in m.Values
    ensures Injective(m) && v !in m.Values ==> Injective(m[k := v])
  {
    var n := m[k := v];
    forall j | j in m ensures m[j] in n.Values && m[j] in m.Values {
      assert n[j] == m[j];
    }
    assert n[k] == v;
  }

  lemma ValuesMinus<K(!new), V>(m: map<K, V>, k: K)
    requires k in m && Injective(m)
    ensures (m - {k}).Values == m.Values - {m[k]} && m[k] in m.Values
    ensures Injective(m - {k})
  {
    var n := m - {k};
    assert n.Keys == m.Keys - {k};
    forall j | j in m && j != k ensures m[j] in n.Values {
      assert n[j] == m[j];
    }
  }
}
