/** A stable sort by descending key: Python's sorted(key=..., reverse=True). */
module Sorting {

  predicate Ordered<T>(s: seq<T>, key: T -> int) {
    forall i, j :: 0 <= i < j < |s| ==> key(s[i]) >= key(s[j])
  }

  // Before the first element whose key is not larger.
  function Insert<T>(x: T, s: seq<T>, key: T -> int): seq<T> {
    if s == [] || key(s[0]) <= key(x) then [x] + s
    else [s[0]] + Insert(x, s[1..], key)
  }

  function SortBy<T>(s: seq<T>, key: T -> int): seq<T> {
    if s == [] then [] else Insert(s[0], SortBy(s[1..], key), key)
  }

  function WithKey<T>(s: seq<T>, key: T -> int, k: int): seq<T> {
    if s == [] then []
    else (if key(s[0]) == k then [s[0]] else []) + WithKey(s[1..], key, k)
  }

  lemma {:induction false} InsertShape<T>(x: T, s: seq<T>, key: T -> int) returns (k: nat)
    ensures k <= |s| && Insert(x, s, key) == s[..k] + [x] + s[k..]
    ensures forall i :: 0 <= i < k ==> key(s[i]) > key(x)
    ensures k < |s| ==> key(s[k]) <= key(x)
  {
    if s == [] || key(s[0]) <= key(x) {
      k := 0;
    } else {
      var j := InsertShape(x, s[1..], key);
      k := j + 1;
      assert s[..k] == [s[0]] + s[1..][..j];
      assert s[k..] == s[1..][j..];
    }
  }

  lemma InsertOrders<T>(x: T, s: seq<T>, key: T -> int)
    requires Ordered(s, key)
    ensures Ordered(Insert(x, s, key), key)
  {
    var k := InsertShape(x, s, key);
    var all := Insert(x, s, key);
    forall i, j | 0 <= i < j < |all| ensures key(all[i]) >= key(all[j]) {
      var i', j' := if i < k then i else i - 1, if j < k then j else j - 1;
      if i != k && j != k {
        assert key(s[i']) >= key(s[j']);
      } else if i == k {
        assert key(s[k]) >= key(s[j']);
      }
    }
  }

  lemma {:induction false} WithKeyAppend<T>(a: seq<T>, b: seq<T>, key: T -> int, k: int)
    ensures WithKey(a + b, key, k) == WithKey(a, key, k) + WithKey(b, key, k)
  {
    if a == [] {
      assert a + b == b;
    } else {
      var all, rest := a + b, a[1..];
      var head := if key(a[0]) == k then [a[0]] else [];
      assert all[0] == a[0] && all[1..] == rest + b;
      assert WithKey(all, key, k) == head + WithKey(rest + b, key, k);
      assert WithKey(a, key, k) == head + WithKey(rest, key, k);
      WithKeyAppend(rest, b, key, k);
    }
  }

  lemma {:induction false} WithKeyNone<T>(s: seq<T>, key: T -> int, k: int)
    requires forall x :: x in s ==> key(x) != k
    ensures WithKey(s, key, k) == []
  {
    if s != [] {
      WithKeyNone(s[1..], key, k);
    }
  }

  lemma InsertStable<T>(x: T, s: seq<T>, key: T -> int, k: int)
    ensures WithKey(Insert(x, s, key), key, k) == WithKey([x] + s, key, k)
  {
    var p := InsertShape(x, s, key);
    var a, b := s[..p], s[p..];
    WithKeyAppend(a + [x], b, key, k);
    WithKeyAppend(a, [x], key, k);
    WithKeyAppend([x] + a, b, key, k);
    WithKeyAppend([x], a, key, k);
    assert [x] + s == [x] + a + b;
    if key(x) == k {
      WithKeyNone(a, key, k);
    } else {
      WithKeyNone([x], key, k);
    }
  }

  lemma {:induction false} InsertPermutes<T>(x: T, s: seq<T>, key: T -> int)
    ensures multiset(Insert(x, s, key)) == multiset(s) + multiset{x}
    ensures |Insert(x, s, key)| == |s| + 1
  {
    if s != [] && key(s[0]) > key(x) {
      InsertPermutes(x, s[1..], key);
      assert s == [s[0]] + s[1..];
    }
  }

  // SortBy permutes its argument and puts the largest key first ...
  lemma {:induction false} SortBySorts<T>(s: seq<T>, key: T -> int)
    ensures multiset(SortBy(s, key)) == multiset(s)
    ensures Ordered(SortBy(s, key), key)
    ensures |SortBy(s, key)| == |s|
  {
    hide Ordered, Insert;
    if s == [] {
      NothingOrdered(s, key);
    } else {
      var rest := SortBy(s[1..], key);
      SortBySorts(s[1..], key);
      InsertOrders(s[0], rest, key);
      InsertPermutes(s[0], rest, key);
      assert s == [s[0]] + s[1..];
    }
  }

  lemma NothingOrdered<T>(s: seq<T>, key: T -> int)
    requires s == []
    ensures Ordered(s, key)
  {}

  // ... and leaves elements with equal keys in the order in which they came.
  lemma {:induction false} SortByStable<T>(s: seq<T>, key: T -> int, k: int)
    ensures WithKey(SortBy(s, key), key, k) == WithKey(s, key, k)
  {
    if s != [] {
      var rest := SortBy(s[1..], key);
      SortByStable(s[1..], key, k);
      InsertStable(s[0], rest, key, k);
      WithKeyAppend([s[0]], s[1..], key, k);
      WithKeyAppend([s[0]], rest, key, k);
      assert s == [s[0]] + s[1..];
    }
  }

  lemma {:induction false} WithKeyAll<T>(s: seq<T>, key: T -> int, k: int)
    requires forall x :: x in s ==> key(x) == k
    ensures WithKey(s, key, k) == s
  {
    if s != [] {
      WithKeyAll(s[1..], key, k);
      assert s == [s[0]] + s[1..];
    }
  }

  // Sorting by a constant changes nothing.
  lemma ConstantSort<T>(s: seq<T>, key: T -> int, k: int)
    requires forall x :: x in s ==> key(x) == k
    ensures SortBy(s, key) == s
  {
    SortBySorts(s, key);
    forall x | x in SortBy(s, key) ensures key(x) == k {
      assert x in multiset(s);
    }
    WithKeyAll(s, key, k);
    WithKeyAll(SortBy(s, key), key, k);
    SortByStable(s, key, k);
  }
}
