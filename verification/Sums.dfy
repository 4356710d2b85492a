/** Sums over sequences and maps, and the spread (largest minus smallest) of a
    set of shares: the vocabulary in which allocations are compared. */
module Sums {

  function Sum(s: seq<int>): int {
    if s == [] then 0 else Sum(s[..|s| - 1]) + s[|s| - 1]
  }

  lemma {:induction false} SumAppend(a: seq<int>, b: seq<int>)
    ensures Sum(a + b) == Sum(a) + Sum(b)
  {
    if b == [] {
      assert a + b == a;
    } else {
      assert (a + b)[..|a + b| - 1] == a + b[..|b| - 1];
      SumAppend(a, b[..|b| - 1]);
    }
  }

  lemma {:induction false} SumLe(a: seq<int>, b: seq<int>)
    requires |a| == |b| && forall i :: 0 <= i < |a| ==> a[i] <= b[i]
    ensures Sum(a) <= Sum(b)
  {
    if a != [] {
      SumLe(a[..|a| - 1], b[..|b| - 1]);
    }
  }

  lemma {:induction false} SumLt(a: seq<int>, b: seq<int>, k: nat)
    requires |a| == |b| && forall i :: 0 <= i < |a| ==> a[i] <= b[i]
    requires k < |a| && a[k] < b[k]
    ensures Sum(a) < Sum(b)
  {
    var n := |a| - 1;
    if k == n {
      SumLe(a[..n], b[..n]);
    } else {
      SumLt(a[..n], b[..n], k);
    }
  }

  lemma {:induction false} SumNonNegative(s: seq<int>)
    requires forall i :: 0 <= i < |s| ==> s[i] >= 0
    ensures Sum(s) >= 0
  {
    if s != [] {
      SumNonNegative(s[..|s| - 1]);
    }
  }

  lemma MapRemove<K>(m: map<K, int>, k: K)
    ensures k in m ==> |m - {k}| == |m| - 1
    ensures k !in m ==> m - {k} == m
  {
    assert (m - {k}).Keys == m.Keys - {k};
    assert |m| == |m.Keys| && |m - {k}| == |(m - {k}).Keys|;
    assert k !in m ==> m - {k} == m;
  }

  // The sum of a map's values, in whatever order they are met.
  ghost function MapSum<K>(m: map<K, int>): int {
    if m == map[] then 0
    else var k :| k in m; m[k] + MapSum(m - {k})
  }

  lemma {:induction false} MapSumRemove<K>(m: map<K, int>, k: K)
    requires k in m
    ensures MapSum(m) == m[k] + MapSum(m - {k})
    decreases |m|
  {
    var j :| j in m && MapSum(m) == m[j] + MapSum(m - {j});
    if j != k {
      MapSumRemove(m - {j}, k);
      MapSumRemove(m - {k}, j);
      assert m - {j} - {k} == m - {k} - {j};
    }
  }

  ghost function Elems(s: seq<int>): set<int> { set v | v in s }

  lemma Member<T>(s: set<T>) returns (v: T)
    requires s != {}
    ensures v in s
  {
    v :| v in s;
  }

  lemma {:induction false} HasMaximum(s: set<int>)
    requires s != {}
    ensures exists top :: top in s && forall u :: u in s ==> u <= top
  {
    var v := Member(s);
    if w :| w in s && w > v {
      assert w in s - {v};
      HasMaximum(s - {v});
      var top :| top in s - {v} && forall u :: u in s - {v} ==> u <= top;
      assert forall u :: u in s ==> u == v || u in s - {v};
    }
  }

  ghost function Maximum(s: set<int>): (top: int)
    requires s != {}
    ensures top in s && forall u :: u in s ==> u <= top
  {
    HasMaximum(s);
    var top :| top in s && forall u :: u in s ==> u <= top;
    top
  }

  lemma HasMinimum(s: set<int>)
    requires s != {}
    ensures exists low :: low in s && forall u :: u in s ==> low <= u
  {
    var negated := set v | v in s :: -v;
    var v := Member(s);
    assert -v in negated;
    var top := Maximum(negated);
    forall u | u in s ensures -top <= u {
      assert -u in negated;
    }
  }

  ghost function Minimum(s: set<int>): (low: int)
    requires s != {}
    ensures low in s && forall u :: u in s ==> low <= u
  {
    HasMinimum(s);
    var low :| low in s && forall u :: u in s ==> low <= u;
    low
  }

  // How unequal a non-empty collection of shares is.
  ghost function Spread(s: set<int>): int
    requires s != {}
  {
    Maximum(s) - Minimum(s)
  }

  ghost function SpreadOf(shares: seq<int>): int
    requires |shares| > 0
  {
    assert shares[0] in Elems(shares);
    Spread(Elems(shares))
  }

  lemma SpreadWithin(s: set<int>, low: int, high: int)
    requires s != {} && forall v :: v in s ==> low <= v <= high
    ensures 0 <= Spread(s) <= high - low
  {}

  lemma SpreadOfWithin(shares: seq<int>, low: int, high: int)
    requires |shares| > 0 && forall i :: 0 <= i < |shares| ==> low <= shares[i] <= high
    ensures 0 <= SpreadOf(shares) <= high - low
  {
    assert shares[0] in Elems(shares);
    SpreadWithin(Elems(shares), low, high);
  }

  lemma Extremes(shares: seq<int>) returns (low: int, high: int)
    requires |shares| > 0
    ensures forall i :: 0 <= i < |shares| ==> low <= shares[i] <= high
    ensures SpreadOf(shares) == high - low
  {
    assert forall i :: 0 <= i < |shares| ==> shares[i] in Elems(shares);
    assert shares[0] in Elems(shares);
    low, high := Minimum(Elems(shares)), Maximum(Elems(shares));
  }

  lemma SpreadNonNegative(shares: seq<int>)
    requires |shares| > 0
    ensures SpreadOf(shares) >= 0
  {
    var low, high := Extremes(shares);
  }
}
