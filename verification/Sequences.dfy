/** Facts about sequences that several parts use. */
module Sequences {

  /** `s` without the first occurrence of `n`. */
  function Without<T(==)>(s: seq<T>, n: T): seq<T> {
    if s == [] then [] else if s[0] == n then s[1..] else [s[0]] + Without(s[1..], n)
  }

  lemma {:induction false} WithoutMiddle<T>(a: seq<T>, n: T, b: seq<T>)
    requires n !in a
    ensures Without(a + [n] + b, n) == a + b
  {
    if a == [] {
      assert a + [n] + b == [n] + b;
    } else {
      WithoutMiddle(a[1..], n, b);
      assert (a + [n] + b)[1..] == a[1..] + [n] + b;
    }
  }

  predicate NoDuplicates<T(==)>(s: seq<T>) {
    forall i, j :: 0 <= i < j < |s| ==> s[i] != s[j]
  }

  lemma Distinguished<T>(a: seq<T>, n: T, b: seq<T>)
    requires NoDuplicates(a + [n] + b)
    ensures n !in a && n !in b
  {
    var i := a + [n] + b;
    assert forall k :: 0 <= k < |a| ==> i[k] == a[k];
    assert forall k :: 0 <= k < |b| ==> i[|a| + 1 + k] == b[k];
    assert i[|a|] == n;
  }

  lemma {:induction false} WithoutDistinct<T>(s: seq<T>, n: T)
    requires NoDuplicates(s) && n in s
    ensures |Without(s, n)| == |s| - 1 && NoDuplicates(Without(s, n))
    ensures forall x :: x in Without(s, n) <==> x in s && x != n
  {
    var i :| 0 <= i < |s| && s[i] == n;
    assert s == s[..i] + [n] + s[i + 1..];
    assert n !in s[..i];
    WithoutMiddle(s[..i], n, s[i + 1..]);
  }
}
