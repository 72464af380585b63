/** Sums of naturals over a finite set of keys: the vocabulary in which "one pass over a mixed
    stream adds up to separate passes" is stated. */
module Sums {

  ghost function SumOver<K>(keys: set<K>, f: K -> nat): nat {
    if keys == {} then 0 else
    var k :| k in keys;
    f(k) + SumOver(keys - {k}, f)
  }

  /** Any key may be taken out first. */
  lemma {:induction false} SumSplit<K>(keys: set<K>, f: K -> nat, k: K)
    requires k in keys
    ensures SumOver(keys, f) == f(k) + SumOver(keys - {k}, f)
    decreases keys
  {
    var first :| first in keys && SumOver(keys, f) == f(first) + SumOver(keys - {first}, f);
    if first != k {
      SumSplit(keys - {first}, f, k);
      SumSplit(keys - {k}, f, first);
      assert keys - {first} - {k} == keys - {k} - {first};
    }
  }

  lemma {:induction false} SumCongruence<K>(keys: set<K>, f: K -> nat, g: K -> nat)
    requires forall k :: k in keys ==> f(k) == g(k)
    ensures SumOver(keys, f) == SumOver(keys, g)
    decreases keys
  {
    if keys != {} {
      var k :| k in keys;
      SumSplit(keys, f, k);
      SumSplit(keys, g, k);
      SumCongruence(keys - {k}, f, g);
    }
  }

  lemma {:induction false} SumPlus<K>(keys: set<K>, f: K -> nat, g: K -> nat, h: K -> nat)
    requires forall k :: k in keys ==> h(k) == f(k) + g(k)
    ensures SumOver(keys, h) == SumOver(keys, f) + SumOver(keys, g)
    decreases keys
  {
    if keys != {} {
      var k :| k in keys;
      SumSplit(keys, f, k);
      SumSplit(keys, g, k);
      SumSplit(keys, h, k);
      SumPlus(keys - {k}, f, g, h);
    }
  }

  /** Changing one summand (possibly a new key) by d changes the sum by d. */
  lemma {:induction false} SumUpdate<K>(keys: set<K>, keys': set<K>, f: K -> nat, g: K -> nat, k: K, d: nat)
    requires keys' == keys + {k}
    requires k !in keys ==> f(k) == 0
    requires forall j :: j in keys && j != k ==> g(j) == f(j)
    requires g(k) == f(k) + d
    ensures SumOver(keys', g) == SumOver(keys, f) + d
  {
    SumSplit(keys', g, k);
    SumCongruence(keys - {k}, f, g);
    assert keys' - {k} == keys - {k};
    if k in keys {
      SumSplit(keys, f, k);
    }
  }
}
