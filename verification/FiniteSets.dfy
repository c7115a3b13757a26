/** Sizes of finite sets. */
module FiniteSets {

  ghost function Range(n: nat): (s: set<nat>)
    ensures |s| == n && forall x: nat :: x in s <==> x < n
  {
    if n == 0 then {} else
    var r := Range(n - 1);
    assert n - 1 !in r;
    r + {n - 1}
  }

  lemma SubsetSize<T>(a: set<T>, b: set<T>)
    requires a <= b
    ensures |a| <= |b|
  {
    assert b == a + (b - a);
  }
}
