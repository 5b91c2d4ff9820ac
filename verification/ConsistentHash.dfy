// Consistent hashing with virtual nodes: pkg/hash/consistent.go.
//
// Each public method is one atomic step.  The hash function is an arbitrary function
// into 64-bit words, so virtual nodes of one or of several nodes may collide.
module ConsistentHash {
  import opened Slices

  const CIRCLE: int := 0x1_0000_0000_0000_0000

  type Hash = h: int | 0 <= h < CIRCLE

  // The hash function and the number of virtual nodes of every node.
  datatype Params = Params(f: string -> Hash, vn: int)

  function Digit(d: nat): (r: char)
    requires d < 10
  {
    "0123456789"[d]
  }

  // strconv.Itoa on the indices of virtual nodes.
  function Itoa(n: nat): (r: string) {
    if n < 10 then [Digit(n)] else Itoa(n / 10) + [Digit(n % 10)]
  }

  // The number a decimal numeral stands for.
  function Numeral(s: string): (n: int) {
    if s == "" then 0 else 10 * Numeral(s[..|s| - 1]) + (s[|s| - 1] as int - '0' as int)
  }

  // s is the decimal notation of n: digits, and no zero at the front of several.
  ghost predicate IsDecimal(s: string, n: nat) {
    && s != "" && (|s| > 1 ==> s[0] != '0')
    && (forall i :: 0 <= i < |s| ==> '0' <= s[i] <= '9')
    && Numeral(s) == n
  }

  // Itoa yields the decimal notation, of which there is one.
  lemma {:induction false} ItoaIsDecimal(n: nat)
    ensures IsDecimal(Itoa(n), n) && Itoa(n) != ""
    ensures n > 0 ==> Itoa(n)[0] != '0'
  {
    if n < 10 {
      assert Itoa(n)[..0] == "" && Numeral("") == 0;
    } else {
      hide IsDecimal, Numeral;
      ItoaIsDecimal(n / 10);
      DecimalMore(Itoa(n / 10), n / 10, n % 10);
    }
  }

  lemma DecimalMore(s: string, n: nat, d: nat)
    requires IsDecimal(s, n) && s[0] != '0' && d < 10
    ensures IsDecimal(s + [Digit(d)], 10 * n + d)
  {
    var more := s + [Digit(d)];
    assert more[..|s|] == s;
    assert Digit(d) as int - '0' as int == d;
  }

  lemma {:induction false} DecimalIsItoa(s: string, n: nat)
    requires IsDecimal(s, n)
    ensures s == Itoa(n)
  {
    var m := |s| - 1;
    var front := s[..m];
    var d := s[m] as int - '0' as int;
    assert s == front + [s[m]] && "0123456789"[d] == s[m];
    if m == 0 {
      assert Numeral(front) == 0;
    } else {
      NumeralPositive(front);
      DecimalIsItoa(front, Numeral(front));
      assert n / 10 == Numeral(front) && n % 10 == d;
    }
  }

  lemma {:induction false} NumeralPositive(s: string)
    requires s != "" && s[0] != '0' && forall i :: 0 <= i < |s| ==> '0' <= s[i] <= '9'
    ensures Numeral(s) > 0
  {
    if |s| > 1 {
      NumeralPositive(s[..|s| - 1]);
    } else {
      assert Numeral(s[..0]) == 0;
    }
  }

  // Two nodes can share a virtual node whatever the hash function is.
  lemma StructuralCollision(p: Params)
    ensures VirtualNode(p, "a", 11) == VirtualNode(p, "a1", 1)
  {
    assert Itoa(11) == Itoa(1) + [Digit(1)] == "11";
    assert "a" + "11" == "a1" + Itoa(1);
  }

  function VirtualNode(p: Params, node: string, i: nat): (r: Hash) {
    p.f(node + Itoa(i))
  }

  // The positions of a node on the circle, with repetitions.
  function Points(p: Params, node: string): (r: seq<Hash>) {
    seq(if p.vn < 0 then 0 else p.vn, i requires i >= 0 => VirtualNode(p, node, i))
  }

  // ---------- the state and what it stands for ----------

  datatype State = State(vnl: seq<Hash>, ring: map<Hash, seq<string>>, nodes: set<string>)

  ghost predicate Sorted(s: seq<Hash>) {
    forall i, j :: 0 <= i < j < |s| ==> s[i] <= s[j]
  }

  // All positions of the nodes of a list.
  function AllPoints(p: Params, order: seq<string>): (r: seq<Hash>) {
    if order == [] then []
    else AllPoints(p, order[..|order| - 1]) + Points(p, order[|order| - 1])
  }

  function Copies(n: nat, x: string): (s: seq<string>)
    ensures |s| == n
  {
    if n == 0 then [] else Copies(n - 1, x) + [x]
  }

  // The nodes at position h: each node once for every virtual node it has there,
  // in the order of the list.
  function NodesAt(p: Params, order: seq<string>, h: Hash): (r: seq<string>) {
    if order == [] then []
    else
      var x := order[|order| - 1];
      NodesAt(p, order[..|order| - 1], h) + Copies(multiset(Points(p, x))[h], x)
  }

  // The ring map holds exactly the non-empty lists.
  ghost predicate RingOf(p: Params, order: seq<string>, ring: map<Hash, seq<string>>) {
    forall h: Hash ::
      && (h in ring <==> NodesAt(p, order, h) != [])
      && (h in ring ==> ring[h] == NodesAt(p, order, h))
  }

  // The representation invariant: the state is determined by the live nodes,
  // listed by their last insertion.
  ghost predicate Represents(p: Params, order: seq<string>, s: State) {
    && NoDuplicates(order)
    && s.nodes == (set x | x in order)
    && Sorted(s.vnl)
    && multiset(s.vnl) == multiset(AllPoints(p, order))
    && RingOf(p, order, s.ring)
  }

  // ---------- counting ----------

  lemma {:induction false} AllPointsAppend(p: Params, order: seq<string>, x: string)
    ensures AllPoints(p, order + [x]) == AllPoints(p, order) + Points(p, x)
    ensures forall h: Hash ::
              NodesAt(p, order + [x], h) == NodesAt(p, order, h) + Copies(multiset(Points(p, x))[h], x)
  {
    assert (order + [x])[..|order|] == order;
  }

  lemma {:induction false} AllPointsRemove(p: Params, order: seq<string>, x: string)
    requires NoDuplicates(order) && x in order
    ensures multiset(AllPoints(p, order)) == multiset(AllPoints(p, Without(order, x))) + multiset(Points(p, x))
  {
    var n := |order| - 1;
    var front := order[..n];
    assert order == front + [order[n]];
    if order[n] == x {
      assert x !in front;
      WithoutAbsent(front, x);
      assert Without(order, x) == front;
    } else {
      AllPointsRemove(p, front, x);
      AllPointsAppend(p, Without(front, x), order[n]);
    }
  }

  lemma {:induction false} CopiesMembers(n: nat, x: string)
    ensures forall y :: y in Copies(n, x) ==> y == x
  {
    if n > 0 {
      CopiesMembers(n - 1, x);
    }
  }

  lemma {:induction false} CopiesWithout(n: nat, x: string, y: string)
    ensures Without(Copies(n, x), y) == if y == x then [] else Copies(n, x)
  {
    if n > 0 {
      CopiesWithout(n - 1, x, y);
      assert Copies(n, x)[..n - 1] == Copies(n - 1, x);
    }
  }

  lemma {:induction false} CopiesCount(n: nat, x: string)
    ensures multiset(Copies(n, x)) == multiset{}[x := n]
  {
    if n > 0 {
      CopiesCount(n - 1, x);
    }
  }

  lemma {:induction false} NodesAtRemove(p: Params, order: seq<string>, x: string, h: Hash)
    ensures NodesAt(p, Without(order, x), h) == Without(NodesAt(p, order, h), x)
  {
    if order != [] {
      var n := |order| - 1;
      var y := order[n];
      var front := order[..n];
      NodesAtRemove(p, front, x, h);
      var c := multiset(Points(p, y))[h];
      CopiesWithout(c, y, x);
      WithoutAppend(NodesAt(p, front, h), Copies(c, y), x);
      if y == x {
        assert Without(order, x) == Without(front, x);
        assert Without(NodesAt(p, front, h), x) + [] == Without(NodesAt(p, front, h), x);
      } else {
        AllPointsAppend(p, Without(front, x), y);
      }
    }
  }

  // Position h carries x exactly when x is in the list and has a virtual node there.
  lemma {:induction false} NodesAtMembers(p: Params, order: seq<string>, h: Hash)
    ensures forall x :: x in NodesAt(p, order, h) <==> x in order && h in Points(p, x)
    ensures NodesAt(p, order, h) != [] <==> h in AllPoints(p, order)
  {
    hide Points;
    if order != [] {
      var n := |order| - 1;
      NodesAtMembers(p, order[..n], h);
      assert order == order[..n] + [order[n]];
      CopiesAt(p, order[n], h);
    }
  }

  lemma CopiesAt(p: Params, y: string, h: Hash)
    ensures var c := Copies(multiset(Points(p, y))[h], y);
            && (h in Points(p, y) <==> c != [])
            && (forall x :: x in c <==> x == y && h in Points(p, y))
  {
    var pts := Points(p, y);
    var c := Copies(multiset(Points(p, y))[h], y);
    assert h in pts <==> multiset(Points(p, y))[h] > 0;
    CopiesMembers(multiset(Points(p, y))[h], y);
    if c != [] {
      assert c[0] in c;
    }
  }

  // How often: once per virtual node that x has at h.
  lemma {:induction false} NodesAtCount(p: Params, order: seq<string>, h: Hash, x: string)
    requires NoDuplicates(order)
    ensures multiset(NodesAt(p, order, h))[x] == if x in order then multiset(Points(p, x))[h] else 0
  {
    hide Points, NoDuplicates;
    if order != [] {
      var n := |order| - 1;
      var y, c := order[n], multiset(Points(p, order[n]))[h];
      FrontDistinct(order);
      NodesAtCount(p, order[..n], h, x);
      CopiesCount(c, y);
      assert order == order[..n] + [y];
    }
  }

  lemma FrontDistinct(order: seq<string>)
    requires order != [] && NoDuplicates(order)
    ensures NoDuplicates(order[..|order| - 1]) && order[|order| - 1] !in order[..|order| - 1]
  {
  }

  // ---------- the library calls ----------

  // sort.Search for the first index whose entry is at least h.
  method Search(s: seq<Hash>, h: Hash) returns (index: nat)
    requires Sorted(s)
    ensures index <= |s|
    ensures forall i :: 0 <= i < index ==> s[i] < h
    ensures forall i :: index <= i < |s| ==> s[i] >= h
  {
    var i, j := 0, |s|;
    while i < j
      invariant 0 <= i <= j <= |s|
      invariant forall k :: 0 <= k < i ==> s[k] < h
      invariant forall k :: j <= k < |s| ==> s[k] >= h
    {
      var m := (i + j) / 2;
      if s[m] < h {
        i := m + 1;
      } else {
        j := m;
      }
    }
    index := i;
  }

  // sort.Slice, as an insertion sort.
  method Sort(s: seq<Hash>) returns (r: seq<Hash>)
    ensures Sorted(r)
    ensures multiset(r) == multiset(s)
  {
    hide Sorted;
    r := [];
    NothingSorted();
    for i := 0 to |s|
      invariant Sorted(r)
      invariant multiset(r) == multiset(s[..i])
    {
      var k := Search(r, s[i]);
      InsertedAt(r, k, s[i]);
      assert s[..i + 1] == s[..i] + [s[i]];
      r := r[..k] + [s[i]] + r[k..];
    }
    assert s[..|s|] == s;
  }

  lemma NothingSorted()
    ensures Sorted([])
  {
  }

  lemma InsertedAt(r: seq<Hash>, k: nat, h: Hash)
    requires Sorted(r) && k <= |r|
    requires forall i :: 0 <= i < k ==> r[i] < h
    requires forall i :: k <= i < |r| ==> r[i] >= h
    ensures Sorted(r[..k] + [h] + r[k..])
    ensures multiset(r[..k] + [h] + r[k..]) == multiset(r) + multiset{h}
  {
    hide Sorted;
    InsertKeepsSorted(r, k, h);
    InsertAddsOne(r, k, h);
  }

  lemma InsertAddsOne(r: seq<Hash>, k: nat, h: Hash)
    requires k <= |r|
    ensures multiset(r[..k] + [h] + r[k..]) == multiset(r) + multiset{h}
  {
    assert r == r[..k] + r[k..];
  }

  lemma InsertKeepsSorted(r: seq<Hash>, k: nat, h: Hash)
    requires Sorted(r) && k <= |r|
    requires forall i :: 0 <= i < k ==> r[i] < h
    requires forall i :: k <= i < |r| ==> r[i] >= h
    ensures Sorted(r[..k] + [h] + r[k..])
  {
    hide Sorted;
    SortedWith(r, k, h, r[..k] + [h] + r[k..]);
  }

  lemma SortedWith(r: seq<Hash>, k: nat, h: Hash, more: seq<Hash>)
    requires Sorted(r) && k <= |r| && |more| == |r| + 1
    requires forall i :: 0 <= i < k ==> r[i] < h
    requires forall i :: k <= i < |r| ==> r[i] >= h
    requires more[k] == h
    requires forall i :: 0 <= i < k ==> more[i] == r[i]
    requires forall i :: k < i < |more| ==> more[i] == r[i - 1]
    ensures Sorted(more)
  {
    forall i, j | 0 <= i < j < |more| ensures more[i] <= more[j] {
      if j < k {
        assert more[i] == r[i] && more[j] == r[j];
      } else if i < k < j {
        assert more[i] == r[i] && more[j] == r[j - 1];
      } else if k < i {
        assert more[i] == r[i - 1] && more[j] == r[j - 1];
      }
    }
  }

  lemma {:induction false} SortedUnique(a: seq<Hash>, b: seq<Hash>)
    requires Sorted(a) && Sorted(b) && multiset(a) == multiset(b)
    ensures a == b
  {
    hide Sorted;
    SameLength(a, b);
    if a != [] {
      var n := |a| - 1;
      assert a[..n] == b[..n] by {
        SameLast(a, b);
        DropLast(a);
        DropLast(b);
        SortedUnique(a[..n], b[..n]);
      }
      SameLast(a, b);
      Rejoin(a, b);
    }
  }

  lemma Rejoin(a: seq<Hash>, b: seq<Hash>)
    requires a != [] && |a| == |b|
    requires a[..|a| - 1] == b[..|b| - 1] && a[|a| - 1] == b[|b| - 1]
    ensures a == b
  {
    assert a == a[..|a| - 1] + [a[|a| - 1]];
    assert b == b[..|b| - 1] + [b[|b| - 1]];
  }

  lemma SameLength(a: seq<Hash>, b: seq<Hash>)
    requires multiset(a) == multiset(b)
    ensures |a| == |b|
  {
    assert |multiset(a)| == |a| && |multiset(b)| == |b|;
  }

  lemma SameLast(a: seq<Hash>, b: seq<Hash>)
    requires Sorted(a) && Sorted(b) && multiset(a) == multiset(b) && a != [] && |a| == |b|
    ensures a[|a| - 1] == b[|b| - 1]
  {
    hide Sorted;
    assert a[|a| - 1] in multiset(a) && b[|b| - 1] in multiset(b);
    LastIsMax(a, b[|b| - 1]);
    LastIsMax(b, a[|a| - 1]);
  }

  lemma LastIsMax(s: seq<Hash>, x: Hash)
    requires Sorted(s) && x in multiset(s)
    ensures s != [] && x <= s[|s| - 1]
  {
  }

  lemma DropLast(s: seq<Hash>)
    requires s != []
    ensures Sorted(s) ==> Sorted(s[..|s| - 1])
    ensures multiset(s[..|s| - 1]) == multiset(s) - multiset{s[|s| - 1]}
  {
    assert s == s[..|s| - 1] + [s[|s| - 1]];
  }

  // ---------- the order of the live nodes ----------

  function Added(order: seq<string>, x: string): (r: seq<string>) { Without(order, x) + [x] }

  // The state reached for a list of live nodes is unique: whatever the history was.
  lemma Canonical(p: Params, order: seq<string>, s: State, t: State)
    requires Represents(p, order, s) && Represents(p, order, t)
    ensures s == t
  {
    SortedUnique(s.vnl, t.vnl);
    assert s.ring.Keys == t.ring.Keys;
    assert s.ring == t.ring;
  }

  // What is left of the list at h after the positions in `gone` were stripped of x.
  function Stripped(p: Params, order: seq<string>, x: string, gone: seq<Hash>, h: Hash): (r: seq<string>) {
    if h in gone then Without(NodesAt(p, order, h), x) else NodesAt(p, order, h)
  }

  ghost predicate StrippedRing(p: Params, order: seq<string>, x: string, gone: seq<Hash>, ring: map<Hash, seq<string>>) {
    forall h: Hash ::
      && (h in ring <==> Stripped(p, order, x, gone, h) != [])
      && (h in ring ==> ring[h] == Stripped(p, order, x, gone, h))
  }

  // What Delete(x) keeps while it walks the virtual nodes of x: the positions lost one
  // entry per virtual node walked, the lists lost every copy of x at the walked positions.
  ghost predicate Stripping(p: Params, order: seq<string>, x: string, i: nat, s: State) {
    && NoDuplicates(order)
    && s.nodes == (set y | y in order)
    && i <= |Points(p, x)|
    && Sorted(s.vnl)
    && multiset(s.vnl) == multiset(AllPoints(p, Without(order, x))) + multiset(Points(p, x)[i..])
    && StrippedRing(p, order, x, Points(p, x)[..i], s.ring)
  }

  lemma StrippingStarts(p: Params, order: seq<string>, x: string, s: State)
    requires Represents(p, order, s) && x in s.nodes
    ensures Stripping(p, order, x, 0, s)
  {
    hide NodesAt, AllPoints, Points, Without;
    AllPointsRemove(p, order, x);
    assert Points(p, x)[0..] == Points(p, x) && Points(p, x)[..0] == [];
    forall h: Hash ensures Stripped(p, order, x, [], h) == NodesAt(p, order, h) {
    }
  }

  lemma Absent(p: Params, order: seq<string>, x: string, s: State)
    requires Represents(p, order, s) && x !in s.nodes
    ensures Without(order, x) == order
  {
    WithoutAbsent(order, x);
  }

  lemma StillSorted(p: Params, order: seq<string>, x: string, i: nat, s: State)
    requires Stripping(p, order, x, i, s)
    ensures Sorted(s.vnl)
  {
  }

  lemma StripStep(p: Params, order: seq<string>, x: string, i: nat, s: State, s': State)
    requires Stripping(p, order, x, i, s) && i < p.vn
    requires s'.nodes == s.nodes && Sorted(s'.vnl)
    requires multiset(s'.vnl) == multiset(s.vnl) - multiset{VirtualNode(p, x, i)}
    requires s'.ring == StrippedMap(s.ring, VirtualNode(p, x, i), x)
    ensures Stripping(p, order, x, i + 1, s')
  {
    hide NodesAt, AllPoints, Points, Without, VirtualNode, StrippedRing;
    var pts := Points(p, x);
    PointsOf(p, x);
    assert pts[i..] == [pts[i]] + pts[i + 1..];
    assert pts[..i + 1] == pts[..i] + [pts[i]];
    StripRing(p, order, x, pts[..i], pts[i], s.ring);
  }

  // One entry of the ring map is stripped of x and dropped when nothing is left.
  function StrippedMap(ring: map<Hash, seq<string>>, h: Hash, x: string): (r: map<Hash, seq<string>>) {
    if h !in ring then ring
    else
      var left := Without(ring[h], x);
      if left == [] then ring - {h} else ring[h := left]
  }

  lemma StripRing(p: Params, order: seq<string>, x: string, gone: seq<Hash>, h: Hash, ring: map<Hash, seq<string>>)
    requires StrippedRing(p, order, x, gone, ring)
    ensures StrippedRing(p, order, x, gone + [h], StrippedMap(ring, h, x))
  {
    hide NodesAt, Without, Stripped;
    var ring' := StrippedMap(ring, h, x);
    forall q: Hash
      ensures q in ring' <==> Stripped(p, order, x, gone + [h], q) != []
      ensures q in ring' ==> ring'[q] == Stripped(p, order, x, gone + [h], q)
    {
      StrippedMore(p, order, x, gone, h, q);
    }
  }

  lemma StrippedMore(p: Params, order: seq<string>, x: string, gone: seq<Hash>, h: Hash, q: Hash)
    ensures Stripped(p, order, x, gone + [h], q) ==
            if q == h then Without(Stripped(p, order, x, gone, h), x) else Stripped(p, order, x, gone, q)
    ensures Without([], x) == []
  {
    var list := NodesAt(p, order, h);
    WithoutMembers(list, x);
    WithoutAbsent(Without(list, x), x);
  }

  // Once all positions of x are stripped the ring is that of the remaining nodes.
  lemma StrippedAll(p: Params, order: seq<string>, x: string, h: Hash)
    ensures Stripped(p, order, x, Points(p, x), h) == NodesAt(p, Without(order, x), h)
  {
    NodesAtRemove(p, order, x, h);
    NodesAtMembers(p, order, h);
    if h !in Points(p, x) {
      WithoutAbsent(NodesAt(p, order, h), x);
    }
  }

  // After the loop of Delete the state is that of the remaining nodes.
  lemma Deleted(p: Params, order: seq<string>, x: string, i: nat, s: State)
    requires Stripping(p, order, x, i, s) && i >= p.vn
    ensures Represents(p, Without(order, x), s.(nodes := s.nodes - {x}))
  {
    hide NodesAt, AllPoints, Without;
    PointsOf(p, x);
    assert Points(p, x)[..i] == Points(p, x) && Points(p, x)[i..] == [];
    forall h: Hash ensures Stripped(p, order, x, Points(p, x), h) == NodesAt(p, Without(order, x), h) {
      StrippedAll(p, order, x, h);
    }
    WithoutDistinct(order, x);
    WithoutMembers(order, x);
  }

  /** The ring object. */
  class Consistent {
    const p: Params
    var vnl: seq<Hash>
    var ring: map<Hash, seq<string>>
    var nodes: set<string>
    ghost var order: seq<string>

    ghost function Value(): (r: State)
      reads this
    {
      State(vnl, ring, nodes)
    }

    ghost predicate Valid()
      reads this
    {
      Represents(p, order, Value())
    }

    constructor (f: string -> Hash, vn: int)
      ensures Valid()
      ensures order == [] && p == Params(f, vn)
      ensures Value() == State([], map[], {})
    {
      p := Params(f, vn);
      vnl, ring, nodes, order := [], map[], {}, [];
    }

    method Delete(node: string)
      requires Valid()
      modifies this
      ensures Valid()
      ensures order == Without(old(order), node)
      ensures node !in nodes
      ensures node !in old(nodes) ==> Value() == old(Value())
    {
      hide Represents, Stripping, Without, Points, VirtualNode, StrippedMap, Sorted;
      if node !in nodes {
        Absent(p, order, node, Value());
        return;
      }
      StrippingStarts(p, order, node, Value());
      var i := 0;
      while i < p.vn
        invariant i == 0 || i <= p.vn
        invariant nodes == old(nodes) && order == old(order)
        invariant Stripping(p, order, node, i, Value())
      {
        ghost var before := Value();
        var h := VirtualNode(p, node, i);
        StillSorted(p, order, node, i, before);
        vnl := Splice(vnl, h);
        ring := Strip(ring, h, node);
        StripStep(p, order, node, i, before, Value());
        i := i + 1;
      }
      Deleted(p, order, node, i, Value());
      nodes := nodes - {node};
      order := Without(order, node);
    }

    method Add(node: string)
      requires Valid()
      modifies this
      ensures Valid()
      ensures order == Without(old(order), node) + [node]
      ensures forall i: nat, numeral :: i < p.vn && IsDecimal(numeral, i) ==>
                var q := p.f(node + numeral);
                q in vnl && q in ring && ring[q] != [] && ring[q][|ring[q]| - 1] == node
    {
      hide Represents, Inserting, Without, Points, VirtualNode, Sorted, IsDecimal, Itoa;
      Delete(node);
      nodes := nodes + {node};
      InsertingStarts(p, order, node, Value());
      var i := 0;
      while i < p.vn
        invariant i == 0 || i <= p.vn
        invariant order == Without(old(order), node)
        invariant Inserting(p, order, node, i, Value())
      {
        ghost var before := Value();
        var h := VirtualNode(p, node, i);
        vnl := vnl + [h];
        ring := ring[h := (if h in ring then ring[h] else []) + [node]];
        InsertStep(p, order, node, i, before, Value());
        i := i + 1;
      }
      ghost var unsorted := Value();
      vnl := Sort(vnl);
      Inserted(p, order, node, i, unsorted, Value());
      order := order + [node];
      forall i: nat, numeral | i < p.vn && IsDecimal(numeral, i)
        ensures var q := p.f(node + numeral);
                q in vnl && q in ring && ring[q] != [] && ring[q][|ring[q]| - 1] == node
      {
        DecimalIsItoa(numeral, i);
        IsLastAt(p, order, node, i, Value());
      }
    }

    method Fetch(node: string) returns (r: string)
      requires Valid()
      ensures r == Route(p, order, node)
      ensures ring == map[] ==> r == ""
      ensures ring != map[] ==> exists q: Hash :: Serves(Value(), p.f(node), p.f(node + "-16777619"), q, r)
    {
      hide AllPoints, Points, NoDuplicates, NodesAt, Represents, Sorted, Itoa, Next, Route, IsNext;
      assert Sorted(vnl) by { SortedOf(p, order, Value()); }
      if |ring| == 0 {
        EmptyRing(p, order, Value());
        NoRoute(p, order, node);
        return "";
      }
      var h := p.f(node);
      RingHasPoints(p, order, Value());
      var size := |vnl|;
      var index := Search(vnl, h);
      WrapsToFirst(index, size);
      index := index % size;
      FetchAt(p, order, Value(), h, index);
      var nodes := ring[vnl[index]];
      RouteIs(p, order, node, vnl[index]);
      ItoaPrime();
      assert node + "-" + "16777619" == node + "-16777619";
      assert Serves(Value(), h, p.f(node + "-16777619"), vnl[index], Route(p, order, node));
      size := |nodes|;
      if size == 0 {
        return "";
      } else if size == 1 {
        return nodes[0];
      } else {
        h := p.f(node + "-" + Itoa(16777619));
        return nodes[h % |nodes|];
      }
    }
  }

  // q is the clockwise next position of h, and r is the entry of its list that a second hash
  // chooses.
  ghost predicate Serves(s: State, h: Hash, second: Hash, q: Hash, r: string) {
    IsNext(s.vnl, h, q) && q in s.ring && s.ring[q] != [] && r == s.ring[q][second % |s.ring[q]|]
  }

  lemma WrapsToFirst(index: nat, size: nat)
    requires index <= size && size > 0
    ensures index % size == if index == size then 0 else index
  {
  }

  // One copy of h is spliced out of the sorted positions.
  method Splice(vnl: seq<Hash>, h: Hash) returns (r: seq<Hash>)
    requires Sorted(vnl)
    ensures Sorted(r)
    ensures multiset(r) == multiset(vnl) - multiset{h}
  {
    hide Sorted;
    r := vnl;
    var index := Search(vnl, h);
    if index <= |vnl| - 1 && vnl[index] == h {
      SplicedOut(vnl, index);
      r := vnl[..index] + vnl[index + 1..];
    } else {
      NotThere(vnl, h, index);
    }
  }

  lemma SplicedOut(s: seq<Hash>, k: nat)
    requires k < |s| && Sorted(s)
    ensures Sorted(s[..k] + s[k + 1..])
    ensures multiset(s[..k] + s[k + 1..]) == multiset(s) - multiset{s[k]}
  {
    var r := s[..k] + s[k + 1..];
    forall i | 0 <= i < |r| ensures r[i] == if i < k then s[i] else s[i + 1] {
    }
    hide Sorted;
    assert s == s[..k] + [s[k]] + s[k + 1..];
  }

  lemma NotThere(s: seq<Hash>, h: Hash, k: nat)
    requires k <= |s| && (k < |s| ==> s[k] != h)
    requires forall i :: 0 <= i < k ==> s[i] < h
    requires forall i :: k <= i < |s| ==> s[i] >= h
    requires Sorted(s)
    ensures multiset(s) - multiset{h} == multiset(s)
  {
    assert h !in s;
  }

  // The update of one entry of the ring map: utils.Delete, then dropping an empty list.
  method Strip(ring: map<Hash, seq<string>>, h: Hash, node: string) returns (r: map<Hash, seq<string>>)
    ensures r == StrippedMap(ring, h, node)
  {
    if h !in ring {
      return ring;
    }
    var list := ring[h];
    var slice := new string[|list|](i requires 0 <= i < |list| => list[i]);
    assert slice[..] == list;
    var k := Slices.Delete(slice, node);
    r := ring[h := slice[..k]];
    if |r[h]| == 0 {
      r := r - {h};
      assert r == ring - {h};
    }
  }

  lemma PointsOf(p: Params, x: string)
    ensures |Points(p, x)| == if p.vn < 0 then 0 else p.vn
    ensures forall i :: 0 <= i < |Points(p, x)| ==> Points(p, x)[i] == VirtualNode(p, x, i)
  {
  }

  // The list at h after the first i virtual nodes of x were appended.
  function Appended(p: Params, order: seq<string>, x: string, i: nat, h: Hash): (r: seq<string>)
    requires i <= |Points(p, x)|
  {
    NodesAt(p, order, h) + Copies(multiset(Points(p, x)[..i])[h], x)
  }

  ghost predicate AppendedRing(p: Params, order: seq<string>, x: string, i: nat, ring: map<Hash, seq<string>>)
    requires i <= |Points(p, x)|
  {
    forall h: Hash ::
      && (h in ring <==> Appended(p, order, x, i, h) != [])
      && (h in ring ==> ring[h] == Appended(p, order, x, i, h))
  }

  // What Add(x) keeps while it appends the virtual nodes of x.
  ghost predicate Inserting(p: Params, order: seq<string>, x: string, i: nat, s: State) {
    && NoDuplicates(order) && x !in order
    && s.nodes == (set y | y in order) + {x}
    && i <= |Points(p, x)|
    && multiset(s.vnl) == multiset(AllPoints(p, order)) + multiset(Points(p, x)[..i])
    && AppendedRing(p, order, x, i, s.ring)
  }

  lemma InsertingStarts(p: Params, order: seq<string>, x: string, s: State)
    requires Represents(p, order, s.(nodes := s.nodes - {x}))
    requires x in s.nodes
    ensures Inserting(p, order, x, 0, s)
  {
    hide NodesAt, AllPoints, Points;
    assert x !in s.nodes - {x};
    assert Points(p, x)[..0] == [];
    forall h: Hash ensures Appended(p, order, x, 0, h) == NodesAt(p, order, h) {
    }
  }

  lemma InsertStep(p: Params, order: seq<string>, x: string, i: nat, s: State, s': State)
    requires Inserting(p, order, x, i, s) && i < p.vn
    requires s'.nodes == s.nodes && s'.vnl == s.vnl + [VirtualNode(p, x, i)]
    requires var h := VirtualNode(p, x, i);
             s'.ring == s.ring[h := (if h in s.ring then s.ring[h] else []) + [x]]
    ensures Inserting(p, order, x, i + 1, s')
  {
    hide NodesAt, AllPoints, Points, VirtualNode, Appended;
    var pts := Points(p, x);
    PointsOf(p, x);
    assert pts[..i + 1] == pts[..i] + [pts[i]];
    forall q: Hash
      ensures q in s'.ring <==> Appended(p, order, x, i + 1, q) != []
      ensures q in s'.ring ==> s'.ring[q] == Appended(p, order, x, i + 1, q)
    {
      AppendOne(p, order, x, i, q);
    }
  }

  lemma AppendOne(p: Params, order: seq<string>, x: string, i: nat, q: Hash)
    requires i < |Points(p, x)|
    ensures Appended(p, order, x, i + 1, q) ==
            Appended(p, order, x, i, q) + (if q == Points(p, x)[i] then [x] else [])
  {
    hide NodesAt, Points;
    var pts := Points(p, x);
    assert pts[..i + 1] == pts[..i] + [pts[i]];
    assert multiset(pts[..i + 1])[q] == multiset(pts[..i])[q] + (if q == pts[i] then 1 else 0);
  }

  // After Add the state is that of the list with x at its end.
  lemma Inserted(p: Params, order: seq<string>, x: string, i: nat, u: State, s: State)
    requires Inserting(p, order, x, i, u) && i >= p.vn
    requires Sorted(s.vnl) && multiset(s.vnl) == multiset(u.vnl)
    requires s.ring == u.ring && s.nodes == u.nodes
    ensures Represents(p, order + [x], s)
  {
    hide NodesAt, AllPoints;
    AllPointsAppend(p, order, x);
    PointsOf(p, x);
    assert Points(p, x)[..i] == Points(p, x);
    forall h: Hash ensures Appended(p, order, x, i, h) == NodesAt(p, order + [x], h) {
    }
  }

  // At each position of the node that was added last its copies end the list.
  lemma IsLastAt(p: Params, order: seq<string>, x: string, i: nat, s: State)
    requires Represents(p, order, s) && order != [] && order[|order| - 1] == x && i < p.vn
    ensures var q := p.f(x + Itoa(i));
            q in s.vnl && q in s.ring && s.ring[q] != [] && s.ring[q][|s.ring[q]| - 1] == x
  {
    hide Itoa, Sorted, NodesAt, AllPoints, Points;
    var front, q := order[..|order| - 1], p.f(x + Itoa(i));
    assert order == front + [x];
    PointsOf(p, x);
    assert q == Points(p, x)[i];
    AllPointsAppend(p, front, x);
    var c := multiset(Points(p, x))[q];
    assert q in multiset(Points(p, x)) && c > 0;
    assert q in AllPoints(p, order);
    assert q in multiset(s.vnl);
    CopiesMembers(c, x);
    assert Copies(c, x)[c - 1] in Copies(c, x);
  }

  // The nodes at a position stand in the order of their last insertion.
  lemma {:induction false} NodesAtInOrder(p: Params, order: seq<string>, h: Hash, i: nat, j: nat)
    requires i < j < |NodesAt(p, order, h)|
    ensures exists a: nat, b: nat ::
              a <= b < |order| && order[a] == NodesAt(p, order, h)[i] && order[b] == NodesAt(p, order, h)[j]
  {
    hide Points;
    var n := |order| - 1;
    var front := NodesAt(p, order[..n], h);
    var c := multiset(Points(p, order[n]))[h];
    CopiesMembers(c, order[n]);
    if j < |front| {
      NodesAtInOrder(p, order[..n], h, i, j);
      var a: nat, b: nat :| a <= b < n && order[..n][a] == front[i] && order[..n][b] == front[j];
      assert order[a] == front[i] && order[b] == front[j];
    } else {
      assert Copies(c, order[n])[j - |front|] in Copies(c, order[n]);
      if i < |front| {
        NodesAtMembers(p, order[..n], h);
        assert front[i] in front;
        var a: nat :| a < n && order[..n][a] == front[i];
        assert order[a] == NodesAt(p, order, h)[i] && order[n] == NodesAt(p, order, h)[j];
      } else {
        assert Copies(c, order[n])[i - |front|] in Copies(c, order[n]);
        assert order[n] == NodesAt(p, order, h)[i] && order[n] == NodesAt(p, order, h)[j];
      }
    }
  }

  // ---------- routing ----------

  // How far q lies clockwise of h.
  function Clockwise(h: Hash, q: Hash): (r: nat) {
    if h <= q then q - h else q + CIRCLE - h
  }

  ghost predicate IsNext(points: seq<Hash>, h: Hash, q: Hash) {
    q in points && forall r :: r in points ==> Clockwise(h, q) <= Clockwise(h, r)
  }

  // The clockwise successor of h, by a linear scan of the positions in any order.
  function Next(points: seq<Hash>, h: Hash): (r: Hash)
    requires points != []
  {
    var n := |points| - 1;
    if n == 0 then points[0]
    else
      var q := Next(points[..n], h);
      if Clockwise(h, points[n]) < Clockwise(h, q) then points[n] else q
  }

  lemma {:induction false} NextIsNearest(points: seq<Hash>, h: Hash)
    requires points != []
    ensures IsNext(points, h, Next(points, h))
  {
    var n := |points| - 1;
    if n > 0 {
      NextIsNearest(points[..n], h);
      OneMorePoint(points, h, Next(points[..n], h));
    }
  }

  lemma OneMorePoint(points: seq<Hash>, h: Hash, q: Hash)
    requires points != [] && IsNext(points[..|points| - 1], h, q)
    ensures var last := points[|points| - 1];
            IsNext(points, h, if Clockwise(h, last) < Clockwise(h, q) then last else q)
  {
    hide Clockwise;
    assert points == points[..|points| - 1] + [points[|points| - 1]];
  }

  // The node that serves a key: with several nodes at the position, a second hash decides.
  function Route(p: Params, order: seq<string>, key: string): (r: string) {
    var points := AllPoints(p, order);
    if points == [] then ""
    else
      var list := NodesAt(p, order, Next(points, p.f(key)));
      if |list| == 0 then ""
      else list[p.f(Rehashed(key)) % |list|]
  }

  // What the second hash is taken of: the key, a dash and the 32-bit FNV prime.
  function Rehashed(key: string): (r: string) { key + "-" + "16777619" }

  lemma ItoaMore(n: nat, front: string)
    requires n >= 10 && Itoa(n / 10) == front
    ensures Itoa(n) == front + [Digit(n % 10)]
  {
  }

  lemma ItoaPrime()
    ensures Itoa(16777619) == "16777619"
  {
    hide Itoa;
    assert Itoa(1) == "1" by { ItoaDigit(1); }
    ItoaMore(16, "1");
    ItoaMore(167, "16");
    ItoaMore(1677, "167");
    ItoaMore(16777, "1677");
    ItoaMore(167776, "16777");
    ItoaMore(1677761, "167776");
    ItoaMore(16777619, "1677761");
  }

  lemma ItoaDigit(n: nat)
    requires n < 10
    ensures Itoa(n) == [Digit(n)]
  {
  }

  lemma NextUnique(a: seq<Hash>, b: seq<Hash>, h: Hash, q: Hash)
    requires forall r :: r in a <==> r in b
    requires IsNext(a, h, q)
    ensures b != [] && Next(b, h) == q
  {
    assert q in b;
    NextIsNearest(b, h);
  }

  // The index found by binary search, wrapped around, is the successor.
  lemma NextIsAt(vnl: seq<Hash>, h: Hash, index: nat)
    requires Sorted(vnl) && vnl != [] && index < |vnl|
    requires forall i :: 0 <= i < index ==> vnl[i] < h
    requires (forall i :: index <= i < |vnl| ==> vnl[i] >= h)
             || (index == 0 && forall i :: 0 <= i < |vnl| ==> vnl[i] < h)
    ensures IsNext(vnl, h, vnl[index])
  {
  }

  lemma SamePoints(p: Params, order: seq<string>, s: State)
    requires Represents(p, order, s)
    ensures forall q: Hash :: q in s.vnl <==> q in AllPoints(p, order)
    ensures forall q: Hash :: q in s.ring <==> q in AllPoints(p, order)
  {
    forall q: Hash
      ensures q in s.vnl <==> q in AllPoints(p, order)
      ensures q in s.ring <==> q in AllPoints(p, order)
    {
      assert q in s.vnl <==> q in multiset(s.vnl);
      NodesAtMembers(p, order, q);
    }
  }

  // The answer at the next position, with one node there or several.
  lemma RouteIs(p: Params, order: seq<string>, key: string, q: Hash)
    requires AllPoints(p, order) != [] && Next(AllPoints(p, order), p.f(key)) == q
    requires NodesAt(p, order, q) != []
    ensures var list := NodesAt(p, order, q);
            && Route(p, order, key) == list[p.f(key + "-" + Itoa(16777619)) % |list|]
            && (|list| == 1 ==> Route(p, order, key) == list[0])
  {
    hide AllPoints, Points, NodesAt, Next, Itoa;
    ItoaPrime();
  }

  lemma NoRoute(p: Params, order: seq<string>, key: string)
    requires AllPoints(p, order) == []
    ensures Route(p, order, key) == ""
  {
  }

  lemma SortedOf(p: Params, order: seq<string>, s: State)
    requires Represents(p, order, s)
    ensures Sorted(s.vnl)
  {
  }

  lemma RingHasPoints(p: Params, order: seq<string>, s: State)
    requires Represents(p, order, s) && s.ring != map[]
    ensures s.vnl != []
  {
    var q :| q in s.ring;
    SamePoints(p, order, s);
  }

  // What Fetch reads at the index it found.
  lemma FetchAt(p: Params, order: seq<string>, s: State, h: Hash, index: nat)
    requires Represents(p, order, s) && index < |s.vnl|
    requires forall i :: 0 <= i < index ==> s.vnl[i] < h
    requires (forall i :: index <= i < |s.vnl| ==> s.vnl[i] >= h)
             || (index == 0 && forall i :: 0 <= i < |s.vnl| ==> s.vnl[i] < h)
    ensures AllPoints(p, order) != [] && Next(AllPoints(p, order), h) == s.vnl[index]
    ensures IsNext(s.vnl, h, s.vnl[index])
    ensures s.vnl[index] in s.ring && s.ring[s.vnl[index]] == NodesAt(p, order, s.vnl[index]) != []
  {
    hide AllPoints, Points, NodesAt;
    SamePoints(p, order, s);
    NextIsAt(s.vnl, h, index);
    NextUnique(s.vnl, AllPoints(p, order), h, s.vnl[index]);
  }

  lemma EmptyRing(p: Params, order: seq<string>, s: State)
    requires Represents(p, order, s) && s.ring == map[]
    ensures AllPoints(p, order) == []
  {
    if AllPoints(p, order) != [] {
      assert AllPoints(p, order)[0] in AllPoints(p, order);
      SamePoints(p, order, s);
    }
  }

  // The node that serves a key has a virtual node at the next position.
  lemma RouteAt(p: Params, order: seq<string>, key: string)
    requires AllPoints(p, order) != []
    ensures var q := Next(AllPoints(p, order), p.f(key));
            && Route(p, order, key) in NodesAt(p, order, q)
            && Route(p, order, key) in order
            && q in Points(p, Route(p, order, key))
  {
    hide NodesAt, AllPoints, Points, Next;
    NextIsNearest(AllPoints(p, order), p.f(key));
    NodesAtMembers(p, order, Next(AllPoints(p, order), p.f(key)));
  }

  lemma AddedThenRemoved(order: seq<string>, x: string)
    requires x !in order
    ensures Without(Added(order, x), x) == order && Added(order, x) == order + [x]
  {
    WithoutAbsent(order, x);
    WithoutAppend(order, [x], x);
    assert Without([x], x) == [];
  }

  // Adding an absent node and deleting it again restores the whole state, list order included.
  lemma AddDeleteRestores(p: Params, order: seq<string>, x: string, s: State, t: State)
    requires x !in s.nodes && Represents(p, order, s)
    requires Represents(p, Without(Added(order, x), x), t)
    ensures t == s
  {
    AddedThenRemoved(order, x);
    Canonical(p, order, s, t);
  }
}
