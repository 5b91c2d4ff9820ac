// Which keys change their node when the nodes of the ring change: the routing of
// pkg/hash/consistent.go over arbitrary hash functions.
module RingRouting {
  import opened Arithmetic
  import opened Slices
  import opened ConsistentHash

  // ---------- the next position ----------

  lemma PointsAfterRemoval(p: Params, order: seq<string>, x: string, q: Hash)
    ensures q in AllPoints(p, Without(order, x)) ==> q in AllPoints(p, order)
    ensures NodesAt(p, Without(order, x), q) == Without(NodesAt(p, order, q), x)
  {
    hide AllPoints, Points, Without, NodesAt;
    NodesAtRemove(p, order, x, q);
    NodesAtMembers(p, order, q);
    NodesAtMembers(p, Without(order, x), q);
    WithoutMembers(NodesAt(p, order, q), x);
    if NodesAt(p, Without(order, x), q) != [] {
      assert NodesAt(p, Without(order, x), q)[0] in NodesAt(p, Without(order, x), q);
    }
  }

  // If a node other than x serves a key, its position is next with and without x.
  lemma SameNext(p: Params, order: seq<string>, x: string, h: Hash)
    requires AllPoints(p, order) != []
    requires Next(AllPoints(p, order), h) in AllPoints(p, Without(order, x))
    ensures AllPoints(p, Without(order, x)) != []
    ensures Next(AllPoints(p, Without(order, x)), h) == Next(AllPoints(p, order), h)
  {
    hide AllPoints, Without, Next;
    var rest := AllPoints(p, Without(order, x));
    forall r | r in rest ensures r in AllPoints(p, order) {
      PointsAfterRemoval(p, order, x, r);
    }
    NextIsNearest(AllPoints(p, order), h);
    NextUnique(rest, rest, h, Next(AllPoints(p, order), h));
  }

  lemma NextIsSelf(points: seq<Hash>, h: Hash)
    requires h in points
    ensures Next(points, h) == h
  {
    hide Next;
    NextUnique(points, points, h, h);
  }

  // ---------- the choice at one position ----------

  // The choice among the nodes at one position, for the second hash g.
  function Choice(list: seq<string>, g: Hash): (node: string)
    requires list != []
  {
    list[g % |list|]
  }

  // c copies of x stand in the list behind its first a entries.
  function Padded(list: seq<string>, a: nat, c: nat, x: string): (padded: seq<string>)
    requires a <= |list|
    ensures |padded| == |list| + c
  {
    list[..a] + Copies(c, x) + list[a..]
  }

  // Whatever the second hash, the choice with the copies is x or the choice without them.
  ghost predicate MovesOnlyTo(list: seq<string>, a: nat, c: nat, x: string)
    requires list != [] && a <= |list|
  {
    forall g: Hash {:trigger Choice(list, g)} ::
      Choice(Padded(list, a, c, x), g) == x || Choice(Padded(list, a, c, x), g) == Choice(list, g)
  }

  function Turned(list: seq<string>, c: nat, i: nat): (node: string)
    requires list != []
  {
    list[(i + c) % |list|]
  }

  ghost predicate Rotates(list: seq<string>, c: nat)
    requires list != []
  {
    forall i: nat {:trigger Turned(list, c, i)} :: i < |list| ==> Turned(list, c, i) == list[i]
  }

  // The exact condition at one position, wherever the copies stand: rotating the list by
  // their number leaves it unchanged.
  lemma MovesOnlyToIff(list: seq<string>, a: nat, c: nat, x: string)
    requires list != [] && a <= |list| && x !in list && |list| + c <= CIRCLE / 2
    ensures MovesOnlyTo(list, a, c, x) <==> Rotates(list, c)
  {
    hide Choice, Padded, Turned;
    if Rotates(list, c) {
      forall g: Hash
        ensures Choice(Padded(list, a, c, x), g) == x || Choice(Padded(list, a, c, x), g) == Choice(list, g)
      {
        RotatesSuffices(list, a, c, x, g);
      }
    }
    if MovesOnlyTo(list, a, c, x) {
      forall i: nat | i < |list| ensures Turned(list, c, i) == list[i] {
        RotatesNeeded(list, a, c, x, i);
      }
    }
  }

  lemma PaddedAt(list: seq<string>, a: nat, c: nat, x: string, i: nat)
    requires a <= |list| && i < |list| + c
    ensures Padded(list, a, c, x)[i] == if i < a then list[i] else if i < a + c then x else list[i - c]
  {
    if a <= i < a + c {
      CopiesMembers(c, x);
      assert Padded(list, a, c, x)[i] == Copies(c, x)[i - a];
      assert Copies(c, x)[i - a] in Copies(c, x);
    }
  }

  lemma RotatesSuffices(list: seq<string>, a: nat, c: nat, x: string, g: Hash)
    requires list != [] && a <= |list| && Rotates(list, c)
    ensures Choice(Padded(list, a, c, x), g) == x || Choice(Padded(list, a, c, x), g) == Choice(list, g)
  {
    hide Rotates, Padded;
    var n := |list| + c;
    var r, q := g % n, g / n;
    QuotientAndRemainder(g, n);
    PaddedAt(list, a, c, x, r);
    if r < a {
      SameChoice(list, c, r, q, g, r, q);
    } else if a + c <= r {
      MulNext(q, c);
      SameChoice(list, c, r - c, q + 1, g, r, q);
    }
  }

  // Turning by c over and over again leads back to the same entry.
  lemma SameChoice(list: seq<string>, c: nat, i: nat, j: nat, g: nat, r: nat, q: nat)
    requires list != [] && Rotates(list, c) && i < |list|
    requires r + q * c == i + j * c
    requires g == r + q * (|list| + c)
    ensures list[g % |list|] == list[i]
  {
    hide Rotates;
    RotatedBy(list, c, i, j);
    WrapAround(r, q, |list|, c);
  }

  lemma RotatesNeeded(list: seq<string>, a: nat, c: nat, x: string, i: nat)
    requires list != [] && a <= |list| && x !in list && |list| + c <= CIRCLE / 2
    requires MovesOnlyTo(list, a, c, x) && i < |list|
    ensures Turned(list, c, i) == list[i]
  {
    hide MovesOnlyTo, Padded;
    var n := |list| + c;
    var g: Hash := if i < a then i + n else i + c;
    assert list[i] in list;
    MovesAt(list, a, c, x, g);
    if i < a {
      RemainderUnique(g, n, 1, i);
      RemainderOfShift(i + c, |list|, 1);
      PaddedAt(list, a, c, x, i);
    } else {
      RemainderUnique(g, n, 0, g);
      PaddedAt(list, a, c, x, g);
    }
  }

  lemma MovesAt(list: seq<string>, a: nat, c: nat, x: string, g: Hash)
    requires list != [] && a <= |list| && MovesOnlyTo(list, a, c, x)
    ensures Choice(Padded(list, a, c, x), g) == x || Choice(Padded(list, a, c, x), g) == Choice(list, g)
  {
    hide Choice, Padded;
    assert Choice(list, g) == Choice(list, g);
  }

  lemma {:induction false} RotatedBy(list: seq<string>, c: nat, i: nat, j: nat)
    requires list != [] && Rotates(list, c) && i < |list|
    ensures list[(i + j * c) % |list|] == list[i]
  {
    var m := |list|;
    if j == 0 {
      RemainderUnique(i, m, 0, i);
    } else {
      RotatedBy(list, c, i, j - 1);
      var a := i + (j - 1) * c;
      assert Turned(list, c, a % m) == list[a % m];
      TwoSteps(a, c, m);
      assert a + c == i + j * c;
    }
  }

  lemma TwoSteps(a: nat, c: nat, m: nat)
    requires m > 0
    ensures (a % m + c) % m == (a + c) % m
  {
    RemainderOfShift(a % m + c, m, a / m);
    assert a % m + c + (a / m) * m == a + c;
  }

  lemma WrapAround(i: nat, j: nat, m: nat, c: nat)
    requires m > 0
    ensures (i + j * (m + c)) % m == (i + j * c) % m
  {
    assert j * (m + c) == j * m + j * c;
    RemainderOfShift(i + j * c, m, j);
  }

  // ---------- minimal disruption ----------

  // A key moves only away from x when x is deleted, and only to x when x is added: the node
  // with x is x or the node without x.
  ghost predicate MovesOnly(p: Params, order: seq<string>, x: string, key: string) {
    Route(p, order, key) == x || Route(p, order, key) == Route(p, Without(order, x), key)
  }

  // At every position of x the other nodes there rotate onto themselves.
  ghost predicate Compatible(p: Params, rest: seq<string>, x: string) {
    forall h: Hash :: h in Points(p, x) && NodesAt(p, rest, h) != [] ==>
      Rotates(NodesAt(p, rest, h), multiset(Points(p, x))[h])
  }

  // The list at a position is the list without x, padded with x once per virtual node.
  lemma {:induction false} PaddedList(p: Params, order: seq<string>, x: string, h: Hash) returns (a: nat)
    requires NoDuplicates(order) && x in order
    ensures var rest, c := NodesAt(p, Without(order, x), h), multiset(Points(p, x))[h];
            && a <= |rest|
            && NodesAt(p, order, h) == Padded(rest, a, c, x)
            && x !in rest
  {
    hide Points, Without, NodesAt, Padded, NoDuplicates;
    var n := |order| - 1;
    var y, front := order[n], order[..n];
    WithoutMembers(order, x);
    NodesAtMembers(p, Without(order, x), h);
    WithoutLast(order, x);
    FrontDistinct(order);
    assert order == front + [y];
    AllPointsAppend(p, front, y);
    if y == x {
      WithoutAbsent(front, x);
      a := |NodesAt(p, front, h)|;
      PaddedAtEnd(NodesAt(p, front, h), multiset(Points(p, x))[h], x);
    } else {
      a := PaddedList(p, front, x, h);
      AllPointsAppend(p, Without(front, x), y);
      PaddedMore(NodesAt(p, Without(front, x), h), a, multiset(Points(p, x))[h], x, Copies(multiset(Points(p, y))[h], y));
    }
  }

  lemma PaddedAtEnd(list: seq<string>, c: nat, x: string)
    ensures Padded(list, |list|, c, x) == list + Copies(c, x)
  {
  }

  lemma WithoutLast(order: seq<string>, x: string)
    requires order != []
    ensures var n := |order| - 1;
            Without(order, x) == if order[n] == x then Without(order[..n], x) else Without(order[..n], x) + [order[n]]
  {
  }

  lemma PaddedMore(list: seq<string>, a: nat, c: nat, x: string, more: seq<string>)
    requires a <= |list|
    ensures Padded(list, a, c, x) + more == Padded(list + more, a, c, x)
  {
  }

  // Compatible positions suffice, for deletion and addition alike.
  lemma CompatibleSuffices(p: Params, order: seq<string>, x: string, key: string)
    requires NoDuplicates(order) && x in order && Compatible(p, Without(order, x), x)
    ensures MovesOnly(p, order, x, key)
  {
    hide AllPoints, NodesAt, Points, Without, Next, Rotates, NoDuplicates, Padded;
    var rest := Without(order, x);
    if AllPoints(p, order) == [] {
      if AllPoints(p, rest) != [] {
        var q := AllPoints(p, rest)[0];
        assert q in AllPoints(p, rest);
        PointsAfterRemoval(p, order, x, q);
      }
    } else {
      var q := Next(AllPoints(p, order), p.f(key));
      var list := NodesAt(p, rest, q);
      RouteAt(p, order, key);
      PointsAfterRemoval(p, order, x, q);
      if list == [] {
        WithoutMembers(NodesAt(p, order, q), x);
        assert Route(p, order, key) !in list;
      } else {
        NodesAtMembers(p, rest, q);
        SameNext(p, order, x, p.f(key));
        var a := PaddedList(p, order, x, q);
        if q in Points(p, x) {
          RotatesSuffices(list, a, multiset(Points(p, x))[q], x, p.f(Rehashed(key)));
        } else {
          NodesAtMembers(p, order, q);
          WithoutAbsent(NodesAt(p, order, q), x);
        }
      }
    }
  }

  // Deleting x changes only the keys that x served, wherever x stands in the history.
  lemma DeleteMovesOnlyItsKeys(p: Params, order: seq<string>, x: string, key: string)
    requires NoDuplicates(order) && Compatible(p, Without(order, x), x)
    ensures Route(p, order, key) == x || Route(p, Without(order, x), key) == Route(p, order, key)
  {
    hide Route, Compatible, NoDuplicates;
    if x in order {
      CompatibleSuffices(p, order, x, key);
    } else {
      WithoutAbsent(order, x);
    }
  }

  // Adding x moves keys only to x.
  lemma AddMovesOnlyToNew(p: Params, order: seq<string>, x: string, key: string)
    requires NoDuplicates(order) && x !in order && Compatible(p, order, x)
    ensures Route(p, Added(order, x), key) == x || Route(p, Added(order, x), key) == Route(p, order, key)
  {
    hide Route, Compatible;
    AddedThenRemoved(order, x);
    CompatibleSuffices(p, Added(order, x), x, key);
  }

  // Each position of x carries at most one other node.
  ghost predicate Unmixed(p: Params, rest: seq<string>, x: string) {
    forall h: Hash, y, z ::
      h in Points(p, x) && y in NodesAt(p, rest, h) && z in NodesAt(p, rest, h) ==> y == z
  }

  lemma UnmixedIsCompatible(p: Params, rest: seq<string>, x: string)
    requires Unmixed(p, rest, x)
    ensures Compatible(p, rest, x)
  {
    hide NodesAt, Points;
    forall h: Hash | h in Points(p, x) && NodesAt(p, rest, h) != []
      ensures Rotates(NodesAt(p, rest, h), multiset(Points(p, x))[h])
    {
      var list, c := NodesAt(p, rest, h), multiset(Points(p, x))[h];
      forall i: nat | i < |list| ensures Turned(list, c, i) == list[i] {
        assert Turned(list, c, i) in list && list[i] in list;
      }
    }
  }

  // In particular when x shares no position with another node.
  lemma DisjointIsUnmixed(p: Params, rest: seq<string>, x: string)
    requires forall h: Hash, y :: h in Points(p, x) && y in rest ==> h !in Points(p, y)
    ensures Unmixed(p, rest, x)
  {
    forall h: Hash, y | h in Points(p, x) ensures y !in NodesAt(p, rest, h) {
      NodesAtMembers(p, rest, h);
    }
  }

  // ---------- the exact condition over the whole ring ----------

  // The two hash functions put the nodes at the same positions.
  ghost predicate Agrees(p: Params, p': Params, order: seq<string>) {
    forall x :: x in order ==> Points(p', x) == Points(p, x)
  }

  lemma {:induction false} AgreesOnLists(p: Params, p': Params, order: seq<string>)
    requires Agrees(p, p', order)
    ensures AllPoints(p', order) == AllPoints(p, order)
    ensures forall h: Hash :: NodesAt(p', order, h) == NodesAt(p, order, h)
  {
    hide Points;
    if order != [] {
      var n := |order| - 1;
      assert order == order[..n] + [order[n]];
      AgreesOnLists(p, p', order[..n]);
    }
  }

  lemma AgreesWithout(p: Params, p': Params, order: seq<string>, x: string)
    requires Agrees(p, p', order)
    ensures Agrees(p, p', Without(order, x))
  {
    hide Points, Without;
    WithoutMembers(order, x);
  }

  lemma {:induction false} LongestIndex(x: string, k: nat) returns (n: nat)
    ensures forall i: nat :: i < k ==> |x + Itoa(i)| <= n
  {
    hide Itoa;
    n := 0;
    if k > 0 {
      n := LongestIndex(x, k - 1);
      var l := |x + Itoa(k - 1)|;
      n := if l > n then l else n;
    }
  }

  lemma {:induction false} LongestName(order: seq<string>, k: nat) returns (n: nat)
    ensures forall x, i: nat :: x in order && i < k ==> |x + Itoa(i)| <= n
  {
    hide Itoa;
    n := 0;
    if order != [] {
      var l := |order| - 1;
      var m := LongestIndex(order[l], k);
      n := LongestName(order[..l], k);
      n := if m > n then m else n;
      assert order == order[..l] + [order[l]];
    }
  }

  // Some hash function with the same ring sends some key to position h with second hash g.
  lemma Redirect(p: Params, order: seq<string>, h: Hash, g: Hash) returns (p': Params, key: string)
    ensures Agrees(p, p', order)
    ensures p'.f(key) == h && p'.f(Rehashed(key)) == g
  {
    hide Itoa;
    var k: nat := if p.vn < 0 then 0 else p.vn;
    var n := LongestName(order, k);
    key := seq(n + 1, i => 'k');
    var second := Rehashed(key);
    p' := Params(s => if s == key then h else if s == second then g else p.f(s), p.vn);
    forall x | x in order ensures Points(p', x) == Points(p, x) {
      forall i: nat | i < k ensures VirtualNode(p', x, i) == VirtualNode(p, x, i) {
        assert |x + Itoa(i)| <= n;
      }
    }
  }

  // A position of x where the other nodes do not rotate moves some key between two of them.
  lemma IncompatibleMoves(p: Params, order: seq<string>, x: string, h: Hash) returns (p': Params, key: string)
    requires NoDuplicates(order) && x in order && h in Points(p, x)
    requires NodesAt(p, Without(order, x), h) != []
    requires !Rotates(NodesAt(p, Without(order, x), h), multiset(Points(p, x))[h])
    requires |NodesAt(p, order, h)| <= CIRCLE / 2
    ensures Agrees(p, p', order) && !MovesOnly(p', order, x, key)
  {
    hide NoDuplicates, Points, NodesAt, AllPoints, Without, Rotates, Padded, Next, Agrees;
    var rest, c := Without(order, x), multiset(Points(p, x))[h];
    var list := NodesAt(p, rest, h);
    var a := PaddedList(p, order, x, h);
    MovesOnlyToIff(list, a, c, x);
    var g: Hash :| Choice(Padded(list, a, c, x), g) != x && Choice(Padded(list, a, c, x), g) != Choice(list, g);
    p', key := Redirect(p, order, h, g);
    AgreesWithout(p, p', order, x);
    AgreesOnLists(p, p', order);
    AgreesOnLists(p, p', rest);
    NodesAtMembers(p, order, h);
    NodesAtMembers(p, rest, h);
    assert x in NodesAt(p, order, h);
    NextIsSelf(AllPoints(p, order), h);
    NextIsSelf(AllPoints(p, rest), h);
  }

  lemma CompatibleAgrees(p: Params, p': Params, order: seq<string>, x: string)
    requires Agrees(p, p', order) && x in order && Compatible(p, Without(order, x), x)
    ensures Compatible(p', Without(order, x), x)
  {
    hide Points, NodesAt, AllPoints, Without, Rotates;
    AgreesWithout(p, p', order, x);
    AgreesOnLists(p, p', Without(order, x));
  }

  // Deleting x, and adding it back, moves no key between two other nodes, for any hash
  // function that yields the same positions and any key, if and only if at every position
  // of x the other nodes rotate onto themselves.
  lemma MovesOnlyIff(p: Params, order: seq<string>, x: string)
    requires NoDuplicates(order) && x in order
    requires forall h: Hash :: |NodesAt(p, order, h)| <= CIRCLE / 2
    ensures (forall p': Params, key :: Agrees(p, p', order) ==> MovesOnly(p', order, x, key))
            <==> Compatible(p, Without(order, x), x)
  {
    hide NoDuplicates, Points, NodesAt, Without, Rotates, Agrees, MovesOnly;
    if Compatible(p, Without(order, x), x) {
      forall p': Params, key | Agrees(p, p', order) ensures MovesOnly(p', order, x, key) {
        CompatibleAgrees(p, p', order, x);
        CompatibleSuffices(p', order, x, key);
      }
    } else {
      var h: Hash :| h in Points(p, x) && NodesAt(p, Without(order, x), h) != [] &&
        !Rotates(NodesAt(p, Without(order, x), h), multiset(Points(p, x))[h]);
      var p', key := IncompatibleMoves(p, order, x, h);
    }
  }

  // With two nodes already at one position, a third one moves a key between the two.
  lemma MixedPositionDisrupts()
    ensures exists p: Params, key ::
              var order := ["a", "b"];
              && NoDuplicates(order) && "x" !in order
              && Route(p, order, key) == "b"
              && Route(p, Added(order, "x"), key) == "a"
  {
    hide Itoa, Route, Without;
    var second := Rehashed("k");
    var p := Params(s => if s == second then 3 else 0, 1);
    assert second[0] == 'k' && |second| > 1;
    forall x: string | x != [] && x[0] != 'k' ensures VirtualNode(p, x, 0) == 0 {
      assert VirtualNode(p, x, 0) == p.f(x + Itoa(0));
      assert (x + Itoa(0))[0] == x[0];
    }
    RouteAtOnePosition(p, ["a", "b"], "k");
    AddedThenRemoved(["a", "b"], "x");
    assert ["a", "b"] + ["x"] == ["a", "b", "x"];
    RouteAtOnePosition(p, ["a", "b", "x"], "k");
    assert Route(p, ["a", "b"], "k") == "b" && NoDuplicates(["a", "b"]);
  }

  lemma RouteAtOnePosition(p: Params, order: seq<string>, key: string)
    requires p.vn == 1 && order != [] && forall x :: x in order ==> VirtualNode(p, x, 0) == 0
    ensures Route(p, order, key) == order[p.f(Rehashed(key)) % |order|]
  {
    hide Itoa, NodesAt, VirtualNode, AllPoints;
    OnePosition(p, order);
    AllAtZero(p, order);
    RouteAt(p, order, key);
  }

  // With one virtual node per node and every position at 0, the list at 0 is the node list.
  lemma {:induction false} OnePosition(p: Params, order: seq<string>)
    requires p.vn == 1 && forall x :: x in order ==> VirtualNode(p, x, 0) == 0
    ensures NodesAt(p, order, 0) == order
  {
    hide VirtualNode, Points, AllPoints, Copies, NodesAt;
    if order == [] {
      NothingAt(p);
    } else {
      var front, x := order[..|order| - 1], order[|order| - 1];
      assert order == front + [x];
      OnePosition(p, front);
      AllPointsAppend(p, front, x);
      OnePoint(p, x);
      OneCopy(x);
    }
  }

  lemma NothingAt(p: Params)
    ensures NodesAt(p, [], 0) == [] && AllPoints(p, []) == []
  {
  }

  lemma OnePoint(p: Params, x: string)
    requires p.vn == 1 && VirtualNode(p, x, 0) == 0
    ensures Points(p, x) == [0] && multiset(Points(p, x))[0] == 1
  {
    hide VirtualNode, Points;
    PointsOf(p, x);
    assert Points(p, x) == [0];
  }

  lemma OneCopy(x: string)
    ensures Copies(1, x) == [x]
  {
    assert Copies(0, x) == [];
  }

  lemma {:induction false} AllAtZero(p: Params, order: seq<string>)
    requires p.vn == 1 && forall x :: x in order ==> VirtualNode(p, x, 0) == 0
    ensures forall h :: h in AllPoints(p, order) ==> h == 0
    ensures order != [] ==> AllPoints(p, order) != []
  {
    hide VirtualNode, Points, AllPoints, Copies, NodesAt;
    if order == [] {
      NothingAt(p);
    } else {
      var front, x := order[..|order| - 1], order[|order| - 1];
      assert order == front + [x];
      AllAtZero(p, front);
      AllPointsAppend(p, front, x);
      OnePoint(p, x);
    }
  }

  // ---------- history independence ----------

  // No position is shared by two nodes; a node may still collide with itself.
  ghost predicate NoCrossCollisions(p: Params, nodes: set<string>) {
    forall x, y, h: Hash :: x in nodes && y in nodes && h in Points(p, x) && h in Points(p, y) ==> x == y
  }

  datatype Op = AddOp(node: string) | DeleteOp(node: string)

  function After(ops: seq<Op>): (r: seq<string>) {
    if ops == [] then []
    else
      var order := After(ops[..|ops| - 1]);
      match ops[|ops| - 1]
      case AddOp(x) => Added(order, x)
      case DeleteOp(x) => Without(order, x)
  }

  function Members(order: seq<string>): (r: set<string>) { set x | x in order }

  lemma PointsOfMembers(p: Params, a: seq<string>, b: seq<string>, q: Hash)
    requires Members(a) == Members(b)
    requires q in AllPoints(p, a)
    ensures q in AllPoints(p, b)
  {
    hide AllPoints, Points, NodesAt;
    NodesAtMembers(p, a, q);
    NodesAtMembers(p, b, q);
    var x := NodesAt(p, a, q)[0];
    assert x in NodesAt(p, a, q);
    assert x in Members(b);
    assert x in NodesAt(p, b, q);
  }

  lemma SameMembersSameRoute(p: Params, a: seq<string>, b: seq<string>, key: string)
    requires Members(a) == Members(b) && NoCrossCollisions(p, Members(a))
    requires AllPoints(p, a) != []
    ensures Route(p, a, key) == Route(p, b, key)
  {
    hide AllPoints, Points, NodesAt, Next, Route;
    var h := p.f(key);
    forall q: Hash ensures q in AllPoints(p, a) <==> q in AllPoints(p, b) {
      if q in AllPoints(p, a) { PointsOfMembers(p, a, b, q); }
      if q in AllPoints(p, b) { PointsOfMembers(p, b, a, q); }
    }
    NextIsNearest(AllPoints(p, a), h);
    NextUnique(AllPoints(p, a), AllPoints(p, b), h, Next(AllPoints(p, a), h));
    RouteAt(p, a, key);
    RouteAt(p, b, key);
    assert Route(p, a, key) in Members(a) && Route(p, b, key) in Members(b);
  }

  // Any two histories that end with the same nodes send every key to the same node.
  lemma HistoryIndependence(p: Params, ops: seq<Op>, ops': seq<Op>, key: string)
    requires Members(After(ops)) == Members(After(ops'))
    requires NoCrossCollisions(p, Members(After(ops)))
    ensures Route(p, After(ops), key) == Route(p, After(ops'), key)
  {
    hide After;
    var a, b := After(ops), After(ops');
    if AllPoints(p, a) != [] {
      SameMembersSameRoute(p, a, b, key);
    } else if AllPoints(p, b) != [] {
      SameMembersSameRoute(p, b, a, key);
    }
  }
}
