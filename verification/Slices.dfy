// pkg/pkg.go: utils.Delete, in-place compaction of a slice.
module Slices {

  // The elements of s other than x, in their order.
  function Without<T(==)>(s: seq<T>, x: T): (r: seq<T>) {
    if s == [] then []
    else
      var n := |s| - 1;
      Without(s[..n], x) + (if s[n] == x then [] else [s[n]])
  }

  lemma {:induction false} WithoutAppend<T>(a: seq<T>, b: seq<T>, x: T)
    ensures Without(a + b, x) == Without(a, x) + Without(b, x)
  {
    if b == [] {
      assert a + b == a;
    } else {
      var n := |b| - 1;
      WithoutAppend(a, b[..n], x);
      assert (a + b)[..|a| + n] == a + b[..n];
    }
  }

  lemma {:induction false} WithoutAbsent<T>(s: seq<T>, x: T)
    requires x !in s
    ensures Without(s, x) == s
  {
    if s != [] {
      WithoutAbsent(s[..|s| - 1], x);
    }
  }

  lemma {:induction false} WithoutMembers<T>(s: seq<T>, x: T)
    ensures forall y :: y in Without(s, x) <==> y in s && y != x
    ensures |Without(s, x)| <= |s|
  {
    if s != [] {
      WithoutMembers(s[..|s| - 1], x);
      assert s == s[..|s| - 1] + [s[|s| - 1]];
    }
  }

  // The positions of the elements other than x, in increasing order.
  ghost function Others<T>(s: seq<T>, x: T): (ps: seq<nat>) {
    if s == [] then []
    else
      var n := |s| - 1;
      Others(s[..n], x) + (if s[n] == x then [] else [n])
  }

  lemma {:induction false} WithoutIsAt<T>(s: seq<T>, x: T)
    ensures var ps, left := Others(s, x), Without(s, x);
            && |ps| == |left|
            && (forall k :: 0 <= k < |ps| ==> ps[k] < |s| && left[k] == s[ps[k]])
            && (forall j, k :: 0 <= j < k < |ps| ==> ps[j] < ps[k])
            && (forall n: nat :: n in ps <==> n < |s| && s[n] != x)
  {
    if s != [] {
      WithoutIsAt(s[..|s| - 1], x);
    }
  }

  ghost predicate NoDuplicates<T>(s: seq<T>) {
    forall i, j :: 0 <= i < j < |s| ==> s[i] != s[j]
  }

  lemma {:induction false} WithoutDistinct<T>(s: seq<T>, x: T)
    requires NoDuplicates(s)
    ensures NoDuplicates(Without(s, x))
  {
    if s != [] {
      var n := |s| - 1;
      WithoutDistinct(s[..n], x);
      WithoutMembers(s[..n], x);
      assert s[n] !in s[..n];
      assert s[n] !in Without(s[..n], x);
    }
  }

  // Compacts the slice and returns the length of what is left of it.
  method Delete<T(==)>(ss: array<T>, elem: T) returns (index: nat)
    modifies ss
    ensures index <= ss.Length
    ensures ss[..index] == Without(old(ss[..]), elem)
  {
    index := 0;
    for i := 0 to ss.Length
      invariant index <= i
      invariant ss[..index] == Without(old(ss[..i]), elem)
      invariant ss[i..] == old(ss[i..])
    {
      ghost var kept := ss[..index];
      var s := ss[i];
      assert s == ss[i..][0] == old(ss[i]);
      assert old(ss[..i + 1]) == old(ss[..i]) + [s];
      assert old(ss[i + 1..]) == old(ss[i..])[1..];
      assert ss[i + 1..] == ss[i..][1..];
      if s != elem {
        ss[index] := s;
        index := index + 1;
        assert ss[..index] == kept + [s];
      }
    }
    assert old(ss[..ss.Length]) == old(ss[..]);
  }
}
