/** Counting: totals of finite tables of counters, and how many elements of a list satisfy a test. */
module Tallies {
  function Get<K(==)>(m: map<K, nat>, k: K): nat {
    if k in m then m[k] else 0
  }

  ghost function Total<K>(m: map<K, nat>): nat
    decreases |m|
  {
    if m == map[] then 0
    else
      var k :| k in m;
      m[k] + Total(m - {k})
  }

  /** Any key may be taken out first. */
  lemma {:induction false} TotalWithout<K>(m: map<K, nat>, k: K)
    requires k in m
    ensures Total(m) == m[k] + Total(m - {k})
    decreases |m|
  {
    var first :| first in m && Total(m) == m[first] + Total(m - {first});
    if first != k {
      TotalWithout(m - {first}, k);
      TotalWithout(m - {k}, first);
      assert m - {first} - {k} == m - {k} - {first};
    }
  }

  lemma {:induction false} TotalUpdate<K>(m: map<K, nat>, k: K, n: nat)
    ensures Total(m[k := n]) == Total(m) - Get(m, k) + n
  {
    var after := m[k := n];
    TotalWithout(after, k);
    if k in m {
      TotalWithout(m, k);
      assert after - {k} == m - {k};
    } else {
      assert after - {k} == m;
    }
  }

  lemma {:induction false} TotalBounds<K>(m: map<K, nat>)
    requires forall k | k in m :: m[k] > 0
    ensures |m| <= Total(m)
    decreases |m|
  {
    if m != map[] {
      var k :| k in m && Total(m) == m[k] + Total(m - {k});
      assert m.Keys == (m - {k}).Keys + {k};
      TotalBounds(m - {k});
    }
  }

  lemma {:induction false} TotalAtMost<K>(m: map<K, nat>, bound: nat)
    requires forall k | k in m :: m[k] <= bound
    ensures Total(m) <= |m| * bound
    decreases |m|
  {
    if m != map[] {
      var k :| k in m;
      TotalWithout(m, k);
      var rest := m - {k};
      assert m.Keys == rest.Keys + {k};
      TotalAtMost(rest, bound);
      OneMore(|rest|, bound);
    }
  }

  lemma OneMore(n: nat, bound: nat)
    ensures (n + 1) * bound == n * bound + bound
  {}

  function CountIf<T>(p: T -> bool, s: seq<T>): nat {
    if s == [] then 0 else (if p(s[0]) then 1 else 0) + CountIf(p, s[1..])
  }

  lemma {:induction false} CountCovered<T>(p: T -> bool, q: T -> bool, r: T -> bool, s: seq<T>)
    requires forall x | x in s && p(x) :: q(x) || r(x)
    ensures CountIf(p, s) <= CountIf(q, s) + CountIf(r, s)
  {
    if s != [] {
      assert forall x | x in s[1..] :: x in s;
      assert s[0] in s;
      CountCovered(p, q, r, s[1..]);
    }
  }

  lemma {:induction false} CountNone<T>(p: T -> bool, s: seq<T>)
    requires forall x | x in s :: !p(x)
    ensures CountIf(p, s) == 0
  {
    if s != [] {
      assert s[0] in s && forall x | x in s[1..] :: x in s;
      CountNone(p, s[1..]);
    }
  }

  lemma SubsetsAreSmaller<T>(a: set<T>, b: set<T>)
    requires a <= b
    ensures |a| <= |b|
  {
    assert b == a + (b - a);
  }
}
