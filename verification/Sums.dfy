// Sums of integer sequences and of integer-valued maps.
module Sums {

  function Sum(s: seq<int>): (total: int) {
    if s == [] then 0 else Sum(s[..|s| - 1]) + s[|s| - 1]
  }

  lemma {:induction false} SumUpdate(s: seq<int>, i: nat, v: int)
    requires i < |s|
    ensures Sum(s[i := v]) == Sum(s) - s[i] + v
  {
    var n := |s| - 1;
    if i == n {
      assert s[i := v][..n] == s[..n];
    } else {
      SumUpdate(s[..n], i, v);
      assert s[i := v][..n] == s[..n][i := v];
    }
  }

  function Plus(a: seq<int>, b: seq<int>): (c: seq<int>)
    requires |a| == |b|
    ensures |c| == |a|
  {
    seq(|a|, i requires 0 <= i < |a| => a[i] + b[i])
  }

  lemma {:induction false} SumPlus(a: seq<int>, b: seq<int>)
    requires |a| == |b|
    ensures Sum(Plus(a, b)) == Sum(a) + Sum(b)
  {
    if a != [] {
      var n := |a| - 1;
      SumPlus(a[..n], b[..n]);
      assert Plus(a, b)[..n] == Plus(a[..n], b[..n]);
    }
  }

  // A pointwise bound becomes a bound on the sum.
  lemma {:induction false} SumAtLeast(s: seq<int>, low: int)
    requires forall i :: 0 <= i < |s| ==> s[i] >= low
    ensures Sum(s) >= |s| * low
  {
    if s != [] {
      SumAtLeast(s[..|s| - 1], low);
    }
  }

  lemma {:induction false} SumAtMost(s: seq<int>, high: int)
    requires forall i :: 0 <= i < |s| ==> s[i] <= high
    ensures Sum(s) <= |s| * high
  {
    if s != [] {
      SumAtMost(s[..|s| - 1], high);
    }
  }

  // Two vectors, one below the other, with equal sums are equal.
  lemma {:induction false} SumSqueeze(a: seq<int>, b: seq<int>)
    requires |a| == |b|
    requires forall i :: 0 <= i < |a| ==> a[i] <= b[i]
    ensures Sum(a) <= Sum(b)
    ensures Sum(a) == Sum(b) ==> a == b
  {
    if a != [] {
      var n := |a| - 1;
      SumSqueeze(a[..n], b[..n]);
      assert a == a[..n] + [a[n]] && b == b[..n] + [b[n]];
    }
  }

  // A prefix of a vector of non-negative numbers sums to no more than the whole.
  lemma {:induction false} SumPrefix(s: seq<int>, k: nat)
    requires k <= |s|
    requires forall i :: 0 <= i < |s| ==> s[i] >= 0
    ensures 0 <= Sum(s[..k]) <= Sum(s)
  {
    SumAtLeast(s[..k], 0);
    if k < |s| {
      SumPrefix(s[..|s| - 1], k);
      assert s[..|s| - 1][..k] == s[..k];
    } else {
      assert s[..k] == s;
    }
  }

  // ---------- sums of maps ----------

  ghost function SumMap(m: map<string, int>): (total: int) {
    if m == map[] then 0
    else var k :| k in m; m[k] + SumMap(m - {k})
  }

  // The order in which the entries are added does not matter.
  lemma {:induction false} SumMapRemove(m: map<string, int>, k: string)
    requires k in m
    ensures SumMap(m) == m[k] + SumMap(m - {k})
    decreases |m|
  {
    var c :| c in m && SumMap(m) == m[c] + SumMap(m - {c});
    if c != k {
      SumMapRemove(m - {c}, k);
      SumMapRemove(m - {k}, c);
      assert m - {c} - {k} == m - {k} - {c};
    }
  }

  lemma {:induction false} SumMapUpdate(m: map<string, int>, k: string, v: int)
    ensures SumMap(m[k := v]) == SumMap(m) + v - (if k in m then m[k] else 0)
  {
    var u := m[k := v];
    SumMapRemove(u, k);
    if k in m {
      SumMapRemove(m, k);
      assert u - {k} == m - {k};
    } else {
      assert u - {k} == m;
    }
  }
}
