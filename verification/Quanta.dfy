/** Sums of multiples of a quantum. */
module Quanta {
  import opened Sums

  predicate Multiples(s: seq<int>, quantum: int)
    requires quantum != 0
  {
    forall i :: 0 <= i < |s| ==> s[i] % quantum == 0
  }

  lemma ProductIsLarge(t: int, q: int)
    requires t >= 1 && q >= 1
    ensures t * q >= q
  {
    assert (t - 1) * q >= 0;
  }

  lemma MultipleOf(x: int, q: int)
    requires q != 0
    ensures (x * q) % q == 0
  {
    var v := x * q;
    var d, m := v / q, v % q;
    var t := x - d;
    assert v == d * q + m;
    assert t * q == m;
    assert t * q == (-t) * (-q) && (-t) * q == -(t * q) && t * (-q) == -(t * q);
    if t != 0 {
      ProductIsLarge(if t > 0 then t else -t, if q > 0 then q else -q);
    }
  }

  lemma AddMultiples(a: int, b: int, quantum: int)
    requires quantum != 0 && a % quantum == 0
    ensures (a + b) % quantum == 0 <==> b % quantum == 0
  {
    var x, y, z := a / quantum, b / quantum, (a + b) / quantum;
    assert a == x * quantum;
    assert (x + y) * quantum == x * quantum + y * quantum;
    assert (z - x) * quantum == z * quantum - x * quantum;
    MultipleOf(x + y, quantum);
    MultipleOf(z - x, quantum);
  }

  lemma {:induction false} SumOfMultiples(s: seq<int>, quantum: int)
    requires quantum != 0 && Multiples(s, quantum)
    ensures Sum(s) % quantum == 0
  {
    if s != [] {
      SumOfMultiples(s[..|s| - 1], quantum);
      AddMultiples(Sum(s[..|s| - 1]), s[|s| - 1], quantum);
    }
  }

  // When a sum and all its terms but the last are multiples, so is the last.
  lemma LastMultiple(s: seq<int>, quantum: int)
    requires quantum != 0 && s != [] && Sum(s) % quantum == 0
    ensures Multiples(s, quantum) <==> forall i :: 0 <= i < |s| - 1 ==> s[i] % quantum == 0
  {
    if forall i :: 0 <= i < |s| - 1 ==> s[i] % quantum == 0 {
      SumOfMultiples(s[..|s| - 1], quantum);
      AddMultiples(Sum(s[..|s| - 1]), s[|s| - 1], quantum);
    }
  }

  lemma UnitQuantum(quantum: int)
    requires quantum != 0
    ensures 1 % quantum == 0 <==> quantum == 1 || quantum == -1
  {}

  lemma UnitDivides(v: int, quantum: int)
    requires quantum == 1 || quantum == -1
    ensures v % quantum == 0
  {}
}
