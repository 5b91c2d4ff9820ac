// Smooth weighted round-robin: transport/grpc/balancer/algo/wrr.go.
//
// One `wrr` object is shared by every node set of the process, so its weight map
// outlives node-set changes.  Weights are mathematical integers here; the lemma
// NoOverflow shows when every intermediate value fits a signed 64-bit word.
module SmoothWrr {
  import opened Arithmetic
  import opened Sums

  datatype Node = Node(addr: string, weight: int)
  datatype Result<T> = Ok(value: T) | NoAvailableNode

  // Reading a missing key of a Go map gives the zero value.
  function Cur(m: map<string, int>, addr: string): (w: int) {
    if addr in m then m[addr] else 0
  }

  function Weights(nodes: seq<Node>): (ws: seq<int>)
    ensures |ws| == |nodes|
  {
    seq(|nodes|, i requires 0 <= i < |nodes| => nodes[i].weight)
  }

  function Curs(m: map<string, int>, nodes: seq<Node>): (cs: seq<int>)
    ensures |cs| == |nodes|
  {
    seq(|nodes|, i requires 0 <= i < |nodes| => Cur(m, nodes[i].addr))
  }

  predicate Distinct(nodes: seq<Node>) {
    forall i, j :: 0 <= i < j < |nodes| ==> nodes[i].addr != nodes[j].addr
  }

  predicate NonNegative(nodes: seq<Node>) {
    forall i :: 0 <= i < |nodes| ==> nodes[i].weight >= 0
  }

  predicate Positive(nodes: seq<Node>) {
    forall i :: 0 <= i < |nodes| ==> nodes[i].weight > 0
  }

  function Total(nodes: seq<Node>): (total: int) { Sum(Weights(nodes)) }

  // ---------- one pick, for any list of nodes ----------

  // The map after every node of the list was given its effective weight.
  function Bumped(m: map<string, int>, nodes: seq<Node>): (m': map<string, int>) {
    if nodes == [] then m
    else
      var n := |nodes| - 1;
      var b := Bumped(m, nodes[..n]);
      b[nodes[n].addr := Cur(b, nodes[n].addr) + nodes[n].weight]
  }

  // The current weight that each node shows when the scan reaches it.
  function Shown(m: map<string, int>, nodes: seq<Node>): (v: seq<int>)
    ensures |v| == |nodes|
  {
    if nodes == [] then []
    else
      var n := |nodes| - 1;
      Shown(m, nodes[..n]) + [Cur(Bumped(m, nodes), nodes[n].addr)]
  }

  // The first position of the largest entry.
  ghost predicate IsFirstMax(v: seq<int>, i: nat) {
    && i < |v|
    && (forall j :: 0 <= j < |v| ==> v[j] <= v[i])
    && (forall j :: 0 <= j < i ==> v[j] < v[i])
  }

  ghost function FirstMax(v: seq<int>): (i: nat)
    requires v != []
    ensures IsFirstMax(v, i)
  {
    var n := |v| - 1;
    if n == 0 then 0
    else
      var h := FirstMax(v[..n]);
      assert forall j :: 0 <= j < n ==> v[..n][j] == v[j];
      if v[h] < v[n] then n else h
  }

  lemma FirstMaxUnique(v: seq<int>, i: nat, j: nat)
    requires IsFirstMax(v, i) && IsFirstMax(v, j)
    ensures i == j
  {
    assert v[i] == v[j];
  }

  // The node hit by a pick: the first to show the largest current weight.
  ghost function Hit(m: map<string, int>, nodes: seq<Node>): (i: nat)
    requires nodes != []
    ensures i < |nodes|
  {
    FirstMax(Shown(m, nodes))
  }

  // The state after a pick that hit node i.
  function Settled(m: map<string, int>, nodes: seq<Node>, i: nat): (m': map<string, int>)
    requires i < |nodes|
  {
    Bumped(m, nodes)[nodes[i].addr := Shown(m, nodes)[i] - Total(nodes)]
  }

  ghost function Step(m: map<string, int>, nodes: seq<Node>): (m': map<string, int>) {
    if nodes == [] then m else Settled(m, nodes, Hit(m, nodes))
  }

  // ---------- what a pick does, address by address ----------

  // The sum of the weights that a list gives to an address.
  function AddressTotal(nodes: seq<Node>, addr: string): (w: int) {
    if nodes == [] then 0
    else
      var last := nodes[|nodes| - 1];
      AddressTotal(nodes[..|nodes| - 1], addr) + (if last.addr == addr then last.weight else 0)
  }

  // The part of that sum that the nodes up to the i-th give to its address.
  function Running(nodes: seq<Node>, i: nat): (w: int)
    requires i < |nodes|
  {
    AddressTotal(nodes[..i + 1], nodes[i].addr)
  }

  // The node hit is the first whose current weight, with all that the list has given to its
  // address so far, is largest; its address pays the total weight, and every other address
  // keeps all it was given.
  ghost predicate PickOf(m: map<string, int>, nodes: seq<Node>, hit: nat, m': map<string, int>) {
    && hit < |nodes|
    && (forall i: nat :: i < |nodes| ==>
          Cur(m, nodes[i].addr) + Running(nodes, i) <= Cur(m, nodes[hit].addr) + Running(nodes, hit))
    && (forall i: nat :: i < hit ==>
          Cur(m, nodes[i].addr) + Running(nodes, i) < Cur(m, nodes[hit].addr) + Running(nodes, hit))
    && Cur(m', nodes[hit].addr) == Cur(m, nodes[hit].addr) + Running(nodes, hit) - Total(nodes)
    && (forall addr :: addr != nodes[hit].addr ==> Cur(m', addr) == Cur(m, addr) + AddressTotal(nodes, addr))
  }

  lemma SettledIsPick(m: map<string, int>, nodes: seq<Node>, hit: nat)
    requires IsFirstMax(Shown(m, nodes), hit)
    ensures PickOf(m, nodes, hit, Settled(m, nodes, hit))
  {
    hide Bumped, Shown, Total, Running, AddressTotal;
    forall i: nat | i < |nodes| ensures Shown(m, nodes)[i] == Cur(m, nodes[i].addr) + Running(nodes, i) {
      ShownIsRunning(m, nodes, i);
    }
    forall addr ensures Cur(Bumped(m, nodes), addr) == Cur(m, addr) + AddressTotal(nodes, addr) {
      BumpedShift(m, nodes, addr);
    }
  }

  // ---------- the balancer ----------

  /** The balancer object: the one mutable map, updated by Pick. */
  class Wrr {
    var weight: map<string, int>

    constructor ()
      ensures weight == map[]
    {
      weight := map[];
    }

    method Pick(nodes: seq<Node>) returns (r: Result<Node>, ghost hit: nat)
      modifies this
      ensures nodes == [] ==> r == NoAvailableNode && weight == old(weight)
      ensures nodes != [] ==>
                && IsFirstMax(Shown(old(weight), nodes), hit)
                && r == Ok(nodes[hit])
                && weight == Settled(old(weight), nodes, hit)
                && hit == Hit(old(weight), nodes)
                && weight == Step(old(weight), nodes)
                && PickOf(old(weight), nodes, hit, weight)
    {
      hide Bumped, Shown, Total;
      hit := 0;
      if |nodes| == 0 {
        return NoAvailableNode, 0;
      }
      var tw, hw := 0, 0;
      var hn: Result<Node> := NoAvailableNode;
      ghost var before := weight;
      ScanNone(before);
      assert nodes[..0] == [];
      for i := 0 to |nodes|
        invariant weight == Bumped(before, nodes[..i])
        invariant tw == Total(nodes[..i])
        invariant hn.Ok? <==> i > 0
        invariant i > 0 ==> hit < i && hn == Ok(nodes[hit])
        invariant i > 0 ==> IsFirstMax(Shown(before, nodes[..i]), hit) && hw == Shown(before, nodes[..i])[hit]
      {
        var n := nodes[i];
        var cw := Cur(weight, n.addr) + n.weight;
        ScanOne(before, nodes, i);
        weight := weight[n.addr := cw];
        tw := tw + n.weight;
        if hn == NoAvailableNode || hw < cw {
          hw := cw;
          hn := Ok(n);
          hit := i;
        }
      }
      assert nodes[..|nodes|] == nodes;
      FirstMaxUnique(Shown(before, nodes), hit, Hit(before, nodes));
      weight := weight[hn.value.addr := hw - tw];
      SettledIsPick(before, nodes, hit);
      r := hn;
    }
  }

  lemma ScanNone(m: map<string, int>)
    ensures Bumped(m, []) == m && Shown(m, []) == [] && Total([]) == 0
  {
  }

  // What one more node adds to the scan.
  lemma ScanOne(m: map<string, int>, nodes: seq<Node>, i: nat)
    requires i < |nodes|
    ensures var b, n := Bumped(m, nodes[..i]), nodes[i];
            && Bumped(m, nodes[..i + 1]) == b[n.addr := Cur(b, n.addr) + n.weight]
            && Shown(m, nodes[..i + 1]) == Shown(m, nodes[..i]) + [Cur(b, n.addr) + n.weight]
            && Total(nodes[..i + 1]) == Total(nodes[..i]) + n.weight
  {
    assert nodes[..i + 1][..i] == nodes[..i];
    assert Weights(nodes[..i + 1])[..i] == Weights(nodes[..i]);
  }

  // ---------- conservation over changing lists ----------

  lemma {:induction false} BumpedSum(m: map<string, int>, nodes: seq<Node>)
    ensures SumMap(Bumped(m, nodes)) == SumMap(m) + Total(nodes)
  {
    if nodes != [] {
      var n := |nodes| - 1;
      var b := Bumped(m, nodes[..n]);
      BumpedSum(m, nodes[..n]);
      SumMapUpdate(b, nodes[n].addr, Cur(b, nodes[n].addr) + nodes[n].weight);
      assert Weights(nodes)[..n] == Weights(nodes[..n]);
    }
  }

  // A pick leaves the sum of the whole map unchanged exactly when the hit node's address
  // ends the scan with the weight it showed when it was hit.
  lemma StepConservesIff(m: map<string, int>, nodes: seq<Node>)
    requires nodes != []
    ensures SumMap(Step(m, nodes)) == SumMap(m) <==>
            Shown(m, nodes)[Hit(m, nodes)] == Cur(Bumped(m, nodes), nodes[Hit(m, nodes)].addr)
  {
    hide Total, Shown;
    var h := Hit(m, nodes);
    BumpedSum(m, nodes);
    SumMapUpdate(Bumped(m, nodes), nodes[h].addr, Shown(m, nodes)[h] - Total(nodes));
  }

  lemma {:induction false} BumpedUntouched(m: map<string, int>, nodes: seq<Node>, addr: string)
    requires forall i :: 0 <= i < |nodes| ==> nodes[i].addr != addr
    ensures Cur(Bumped(m, nodes), addr) == Cur(m, addr)
  {
    if nodes != [] {
      BumpedUntouched(m, nodes[..|nodes| - 1], addr);
    }
  }

  lemma {:induction false} BumpedGrows(m: map<string, int>, nodes: seq<Node>, k: nat, addr: string)
    requires k <= |nodes| && NonNegative(nodes)
    ensures Cur(Bumped(m, nodes[..k]), addr) <= Cur(Bumped(m, nodes), addr)
  {
    if k == |nodes| {
      assert nodes[..k] == nodes;
    } else {
      var n := |nodes| - 1;
      BumpedGrows(m, nodes[..n], k, addr);
      assert nodes[..n][..k] == nodes[..k];
    }
  }

  lemma {:induction false} ShownAt(m: map<string, int>, nodes: seq<Node>, i: nat)
    requires i < |nodes|
    ensures Shown(m, nodes)[i] == Cur(Bumped(m, nodes[..i + 1]), nodes[i].addr)
  {
    var n := |nodes| - 1;
    if i < n {
      ShownAt(m, nodes[..n], i);
      assert nodes[..n][..i + 1] == nodes[..i + 1];
    } else {
      assert nodes[..i + 1] == nodes;
    }
  }

  // The last node with an address shows that address's final weight.
  lemma {:induction false} LastShows(m: map<string, int>, nodes: seq<Node>, i: nat) returns (last: nat)
    requires i < |nodes|
    ensures i <= last < |nodes| && nodes[last].addr == nodes[i].addr
    ensures Shown(m, nodes)[last] == Cur(Bumped(m, nodes), nodes[i].addr)
    ensures Distinct(nodes) ==> last == i
  {
    var n := |nodes| - 1;
    if nodes[n].addr == nodes[i].addr {
      last := n;
    } else {
      last := LastShows(m, nodes[..n], i);
    }
  }

  // Every address ends the list at its highest running total.
  ghost predicate EndsHighest(nodes: seq<Node>) {
    forall i: nat :: i < |nodes| ==> Running(nodes, i) <= AddressTotal(nodes, nodes[i].addr)
  }

  // What a scan adds does not depend on where it starts.
  lemma {:induction false} BumpedShift(m: map<string, int>, nodes: seq<Node>, addr: string)
    ensures Cur(Bumped(m, nodes), addr) == Cur(m, addr) + AddressTotal(nodes, addr)
  {
    if nodes != [] {
      var n := |nodes| - 1;
      BumpedShift(m, nodes[..n], addr);
      BumpedShift(m, nodes[..n], nodes[n].addr);
    }
  }

  lemma ShownIsRunning(m: map<string, int>, nodes: seq<Node>, i: nat)
    requires i < |nodes|
    ensures Shown(m, nodes)[i] == Cur(m, nodes[i].addr) + Running(nodes, i)
  {
    hide Bumped, Shown;
    ShownAt(m, nodes, i);
    BumpedShift(m, nodes[..i + 1], nodes[i].addr);
  }

  lemma EndsHighestConserves(m: map<string, int>, nodes: seq<Node>)
    requires nodes != [] && EndsHighest(nodes)
    ensures SumMap(Step(m, nodes)) == SumMap(m)
  {
    hide Bumped, Shown, Step;
    var h := Hit(m, nodes);
    var last := LastShows(m, nodes, h);
    ShownIsRunning(m, nodes, h);
    BumpedShift(m, nodes, nodes[h].addr);
    assert Running(nodes, h) <= AddressTotal(nodes, nodes[h].addr);
    StepConservesIff(m, nodes);
  }

  lemma {:induction false} Bound(v: seq<int>) returns (b: int)
    ensures b >= 0 && forall i :: 0 <= i < |v| ==> -b <= v[i] <= b
  {
    if v == [] {
      b := 0;
    } else {
      var n := |v| - 1;
      b := Bound(v[..n]);
      if v[n] > b {
        b := v[n];
      } else if -v[n] > b {
        b := -v[n];
      }
      assert v == v[..n] + [v[n]];
    }
  }

  // An address that ends below an earlier running total leaks, from the state that lifts it
  // above all others.
  lemma FallingLeaks(nodes: seq<Node>, i: nat) returns (m: map<string, int>)
    requires i < |nodes| && Running(nodes, i) > AddressTotal(nodes, nodes[i].addr)
    ensures SumMap(Step(m, nodes)) != SumMap(m)
  {
    hide Bumped, Shown, Step, Running, AddressTotal;
    var a := nodes[i].addr;
    var running := seq(|nodes|, j requires 0 <= j < |nodes| => Running(nodes, j));
    var b := Bound(running);
    m := map[a := 2 * b + 1];
    var h := Hit(m, nodes);
    ShownIsRunning(m, nodes, i);
    ShownIsRunning(m, nodes, h);
    assert running[i] == Running(nodes, i) && running[h] == Running(nodes, h);
    assert nodes[h].addr == a;
    BumpedShift(m, nodes, a);
    StepConservesIff(m, nodes);
  }

  // The exact condition, read off the list: a list keeps the sum from every state if and
  // only if every address ends at its highest running total.
  lemma ListConservesIff(nodes: seq<Node>)
    requires nodes != []
    ensures (forall m: map<string, int> :: SumMap(Step(m, nodes)) == SumMap(m)) <==> EndsHighest(nodes)
  {
    hide Step, Running, AddressTotal;
    if EndsHighest(nodes) {
      forall m: map<string, int> ensures SumMap(Step(m, nodes)) == SumMap(m) {
        EndsHighestConserves(m, nodes);
      }
    } else {
      var i: nat :| i < |nodes| && Running(nodes, i) > AddressTotal(nodes, nodes[i].addr);
      var m := FallingLeaks(nodes, i);
    }
  }

  // Distinct addresses meet it, and so do repeated ones with non-negative weights.
  lemma UsualListsEndHighest(nodes: seq<Node>)
    requires Distinct(nodes) || NonNegative(nodes)
    ensures EndsHighest(nodes)
  {
    hide AddressTotal, Bumped, Shown;
    forall i: nat | i < |nodes| ensures Running(nodes, i) <= AddressTotal(nodes, nodes[i].addr) {
      BumpedShift(map[], nodes, nodes[i].addr);
      BumpedShift(map[], nodes[..i + 1], nodes[i].addr);
      if NonNegative(nodes) {
        BumpedGrows(map[], nodes, i + 1, nodes[i].addr);
      } else {
        BumpedAt(map[], nodes, i);
        ShownAt(map[], nodes, i);
      }
    }
  }

  // With a repeated address and a negative weight the sum is lost.
  lemma NegativeDuplicateLeaks()
    ensures var nodes := [Node("a", 5), Node("a", -3)];
            SumMap(Step(map[], nodes)) != SumMap(map[])
  {
    var nodes := [Node("a", 5), Node("a", -3)];
    var m: map<string, int> := map[];
    assert nodes[..1] == [Node("a", 5)] && nodes[..1][..0] == [];
    assert Bumped(m, nodes[..1]) == map["a" := 5];
    assert Bumped(m, nodes) == map["a" := 2];
    assert Shown(m, nodes[..1]) == [5];
    assert Shown(m, nodes) == [5, 2];
    FirstMaxUnique([5, 2], 0, Hit(m, nodes));
    StepConservesIff(m, nodes);
  }

  // A run of picks over arbitrary, changing lists; an empty list is the error path.
  ghost function Run(m: map<string, int>, lists: seq<seq<Node>>): (m': map<string, int>) {
    if lists == [] then m
    else Step(Run(m, lists[..|lists| - 1]), lists[|lists| - 1])
  }

  // Conservation over node changes: entries of departed nodes are part of the sum.
  lemma {:induction false} RunConserves(m: map<string, int>, lists: seq<seq<Node>>)
    requires forall k :: 0 <= k < |lists| ==> EndsHighest(lists[k])
    ensures SumMap(Run(m, lists)) == SumMap(m)
  {
    hide EndsHighest, Step;
    if lists != [] {
      var n := |lists| - 1;
      RunConserves(m, lists[..n]);
      if lists[n] == [] {
        NothingToPick(Run(m, lists[..n]));
      } else {
        EndsHighestConserves(Run(m, lists[..n]), lists[n]);
      }
    }
  }

  lemma NothingToPick(m: map<string, int>)
    ensures Step(m, []) == m
  {
  }

  // ---------- picks as operations on vectors ----------

  // One pick on the current weights c of nodes with weights w, hitting node i.
  function VStep(c: seq<int>, w: seq<int>, i: nat): (r: seq<int>)
    requires |c| == |w| && i < |c|
    ensures |r| == |c|
  {
    Plus(c, w)[i := c[i] + w[i] - Sum(w)]
  }

  lemma {:induction false} BumpedAt(m: map<string, int>, nodes: seq<Node>, i: nat)
    requires Distinct(nodes) && i < |nodes|
    ensures Cur(Bumped(m, nodes), nodes[i].addr) == Cur(m, nodes[i].addr) + nodes[i].weight
    ensures Shown(m, nodes)[i] == Cur(m, nodes[i].addr) + nodes[i].weight
  {
    ScanOne(m, nodes, i);
    BumpedUntouched(m, nodes[..i], nodes[i].addr);
    ShownAt(m, nodes, i);
    var last := LastShows(m, nodes, i);
  }

  lemma ShownIsPlus(m: map<string, int>, nodes: seq<Node>)
    requires Distinct(nodes)
    ensures Shown(m, nodes) == Plus(Curs(m, nodes), Weights(nodes))
  {
    forall i: nat | i < |nodes| ensures Shown(m, nodes)[i] == Plus(Curs(m, nodes), Weights(nodes))[i] {
      BumpedAt(m, nodes, i);
    }
  }

  // On distinct addresses a pick of the map is a pick of the vector.
  lemma StepIsVStep(m: map<string, int>, nodes: seq<Node>)
    requires Distinct(nodes) && nodes != []
    ensures Hit(m, nodes) == FirstMax(Plus(Curs(m, nodes), Weights(nodes)))
    ensures Curs(Step(m, nodes), nodes) == VStep(Curs(m, nodes), Weights(nodes), Hit(m, nodes))
  {
    ShownIsPlus(m, nodes);
    var h := Hit(m, nodes);
    forall i: nat | i < |nodes|
      ensures Cur(Settled(m, nodes, h), nodes[i].addr) == VStep(Curs(m, nodes), Weights(nodes), h)[i]
    {
      BumpedAt(m, nodes, i);
      if i != h {
        assert nodes[i].addr != nodes[h].addr;
      }
    }
  }

  // ---------- fairness, with other node lists using the same picker ----------

  ghost predicate DisjointFrom(list: seq<Node>, nodes: seq<Node>) {
    forall i, j :: 0 <= i < |list| && 0 <= j < |nodes| ==> list[i].addr != nodes[j].addr
  }

  // Every pick of the run is from `nodes` or from a list that shares no address with it.
  ghost predicate Independent(lists: seq<seq<Node>>, nodes: seq<Node>) {
    lists == [] ||
    var n := |lists| - 1;
    && (lists[n] == nodes || DisjointFrom(lists[n], nodes))
    && Independent(lists[..n], nodes)
  }

  // The number of picks from `nodes`, and how many of them hit node i.
  ghost function Turns(lists: seq<seq<Node>>, nodes: seq<Node>): (n: nat) {
    if lists == [] then 0
    else Turns(lists[..|lists| - 1], nodes) + (if lists[|lists| - 1] == nodes then 1 else 0)
  }

  ghost function Picks(m: map<string, int>, lists: seq<seq<Node>>, nodes: seq<Node>): (p: seq<int>)
    requires nodes != []
    ensures |p| == |nodes|
  {
    if lists == [] then seq(|nodes|, i => 0)
    else
      var n := |lists| - 1;
      var p := Picks(m, lists[..n], nodes);
      if lists[n] == nodes
      then var h := Hit(Run(m, lists[..n]), nodes); p[h := p[h] + 1]
      else p
  }

  lemma DisjointUntouched(m: map<string, int>, list: seq<Node>, nodes: seq<Node>)
    requires DisjointFrom(list, nodes)
    ensures Curs(Step(m, list), nodes) == Curs(m, nodes)
  {
    forall j | 0 <= j < |nodes| ensures Cur(Step(m, list), nodes[j].addr) == Cur(m, nodes[j].addr) {
      BumpedUntouched(m, list, nodes[j].addr);
    }
  }

  // One more pick from `nodes`.
  lemma TakeTurn(m: map<string, int>, lists: seq<seq<Node>>, nodes: seq<Node>, i: nat)
    requires nodes != [] && Distinct(nodes) && i < |nodes|
    requires lists != [] && lists[|lists| - 1] == nodes
    ensures var n := |lists| - 1;
            var before := Run(m, lists[..n]);
            var d := if i == Hit(before, nodes) then 1 else 0;
            && Turns(lists, nodes) == Turns(lists[..n], nodes) + 1
            && Picks(m, lists, nodes)[i] == Picks(m, lists[..n], nodes)[i] + d
            && Sum(Picks(m, lists, nodes)) == Sum(Picks(m, lists[..n], nodes)) + 1
            && Cur(Run(m, lists), nodes[i].addr) ==
               Cur(before, nodes[i].addr) + nodes[i].weight - (if d == 1 then Total(nodes) else 0)
  {
    hide Step, Hit, Total, Distinct, Run, Turns, Picks;
    var n := |lists| - 1;
    var before := Run(m, lists[..n]);
    var h := Hit(before, nodes);
    var p := Picks(m, lists[..n], nodes);
    RunOne(m, lists);
    TurnsOne(lists, nodes);
    PicksOne(m, lists, nodes);
    CurrentAfter(before, nodes, i);
    SumUpdate(p, h, p[h] + 1);
  }

  lemma RunOne(m: map<string, int>, lists: seq<seq<Node>>)
    requires lists != []
    ensures Run(m, lists) == Step(Run(m, lists[..|lists| - 1]), lists[|lists| - 1])
  {
  }

  lemma TurnsOne(lists: seq<seq<Node>>, nodes: seq<Node>)
    requires lists != []
    ensures Turns(lists, nodes) ==
            Turns(lists[..|lists| - 1], nodes) + (if lists[|lists| - 1] == nodes then 1 else 0)
  {
  }

  lemma PicksOne(m: map<string, int>, lists: seq<seq<Node>>, nodes: seq<Node>)
    requires nodes != [] && lists != [] && lists[|lists| - 1] == nodes
    ensures var before := lists[..|lists| - 1];
            var p, h := Picks(m, before, nodes), Hit(Run(m, before), nodes);
            h < |p| && Picks(m, lists, nodes) == p[h := p[h] + 1]
  {
    hide Run, Hit;
  }

  // What a pick does to the current weight of one node.
  lemma CurrentAfter(m: map<string, int>, nodes: seq<Node>, i: nat)
    requires nodes != [] && Distinct(nodes) && i < |nodes|
    ensures Cur(Step(m, nodes), nodes[i].addr) ==
            Cur(m, nodes[i].addr) + nodes[i].weight - (if i == Hit(m, nodes) then Total(nodes) else 0)
  {
    hide Step, Hit, Distinct;
    StepIsVStep(m, nodes);
    assert Curs(Step(m, nodes), nodes)[i] == Cur(Step(m, nodes), nodes[i].addr);
    assert Curs(m, nodes)[i] == Cur(m, nodes[i].addr);
  }

  // One more pick from a list that shares no address with `nodes`.
  lemma SkipTurn(m: map<string, int>, lists: seq<seq<Node>>, nodes: seq<Node>)
    requires nodes != [] && lists != [] && lists[|lists| - 1] != nodes
    requires DisjointFrom(lists[|lists| - 1], nodes)
    ensures var n := |lists| - 1;
            && Turns(lists, nodes) == Turns(lists[..n], nodes)
            && Picks(m, lists, nodes) == Picks(m, lists[..n], nodes)
            && Curs(Run(m, lists), nodes) == Curs(Run(m, lists[..n]), nodes)
  {
    hide Step;
    DisjointUntouched(Run(m, lists[..|lists| - 1]), lists[|lists| - 1], nodes);
  }

  // The exact account of every node, from any starting state.
  lemma {:induction false} Account(m: map<string, int>, lists: seq<seq<Node>>, nodes: seq<Node>, i: nat)
    requires nodes != [] && Distinct(nodes) && Independent(lists, nodes) && i < |nodes|
    ensures Cur(Run(m, lists), nodes[i].addr) ==
            Cur(m, nodes[i].addr) + Turns(lists, nodes) * nodes[i].weight - Total(nodes) * Picks(m, lists, nodes)[i]
    ensures Sum(Picks(m, lists, nodes)) == Turns(lists, nodes)
  {
    hide Step, Hit, Total, Distinct;
    if lists == [] {
      AllZeroSum(Picks(m, lists, nodes));
    } else {
      var n := |lists| - 1;
      var before := Run(m, lists[..n]);
      Account(m, lists[..n], nodes, i);
      if lists[n] == nodes {
        TakeTurn(m, lists, nodes, i);
        AccountStep(Cur(before, nodes[i].addr), Cur(m, nodes[i].addr), Turns(lists[..n], nodes), nodes[i].weight,
                    Total(nodes), Picks(m, lists[..n], nodes)[i], if i == Hit(before, nodes) then 1 else 0);
      } else {
        SkipTurn(m, lists, nodes);
        assert Curs(Run(m, lists), nodes)[i] == Curs(before, nodes)[i];
      }
    }
  }

  lemma AccountStep(c: int, c0: int, k: int, w: int, t: int, p: int, d: int)
    requires c == c0 + k * w - t * p
    requires d == 0 || d == 1
    ensures c + w - (if d == 1 then t else 0) == c0 + (k + 1) * w - t * (p + d)
  {
  }

  lemma {:induction false} AllZeroSum(s: seq<int>)
    requires forall i :: 0 <= i < |s| ==> s[i] == 0
    ensures Sum(s) == 0
  {
    SumAtLeast(s, 0);
    SumAtMost(s, 0);
  }

  // What every pick keeps, from any state: the sum of the currents, and a bound from below.
  // The bound leaves room for the total: the largest of the weights shown is at least their
  // average, so the node that is hit does not fall below it.
  ghost predicate Held(c: seq<int>, low: int, sum: int, total: int) {
    && Sum(c) == sum
    && |c| * (low + total) <= sum + total
    && forall i :: 0 <= i < |c| ==> low <= c[i]
  }

  lemma VStepHeld(c: seq<int>, w: seq<int>, h: nat, low: int, sum: int)
    requires |c| == |w| && Held(c, low, sum, Sum(w)) && IsFirstMax(Plus(c, w), h)
    requires forall i :: 0 <= i < |w| ==> w[i] > 0
    ensures Held(VStep(c, w, h), low, sum, Sum(w))
  {
    var b := Plus(c, w);
    SumPlus(c, w);
    SumAtMost(b, b[h]);
    MulCancel(|c|, low + Sum(w), b[h]);
    SumUpdate(b, h, b[h] - Sum(w));
  }

  lemma {:induction false} RunHeld(m: map<string, int>, lists: seq<seq<Node>>, nodes: seq<Node>, low: int, sum: int)
    requires nodes != [] && Distinct(nodes) && Positive(nodes) && Independent(lists, nodes)
    requires Held(Curs(m, nodes), low, sum, Total(nodes))
    ensures Held(Curs(Run(m, lists), nodes), low, sum, Total(nodes))
  {
    hide Step, Hit, Held;
    if lists != [] {
      var n := |lists| - 1;
      var before := Run(m, lists[..n]);
      RunHeld(m, lists[..n], nodes, low, sum);
      if lists[n] == nodes {
        StepIsVStep(before, nodes);
        VStepHeld(Curs(before, nodes), Weights(nodes), Hit(before, nodes), low, sum);
      } else {
        DisjointUntouched(before, lists[n], nodes);
      }
    }
  }

  // One value among others that are held from below is held from above.
  lemma OneIsBounded(c: seq<int>, low: int, sum: int, total: int, i: nat)
    requires Held(c, low, sum, total) && i < |c|
    ensures low <= c[i] <= sum - (|c| - 1) * low
  {
    var others := c[i := low];
    SumUpdate(c, i, low);
    SumAtLeast(others, low);
    assert |c| * low == (|c| - 1) * low + low;
  }

  // Every state has such a bound.
  function LowerBound(c: seq<int>, sum: int, total: int): (low: int)
    requires c != []
  {
    Least(c, (sum + total) / |c| - total)
  }

  function Least(c: seq<int>, start: int): (low: int)
    ensures low <= start && forall i :: 0 <= i < |c| ==> low <= c[i]
    ensures low == start || low in c
  {
    if c == [] then start
    else
      var front := Least(c[..|c| - 1], start);
      var last := c[|c| - 1];
      if last < front then last else front
  }

  lemma LowerBoundHolds(c: seq<int>, total: int)
    requires c != []
    ensures Held(c, LowerBound(c, Sum(c), total), Sum(c), total)
  {
    hide Sum;
    var low := LowerBound(c, Sum(c), total);
    BelowAverage(|c|, Sum(c) + total, low + total);
  }

  lemma BelowAverage(n: nat, sum: int, x: int)
    requires n > 0 && x <= sum / n
    ensures n * x <= sum
  {
    MulMono(x, sum / n, n);
  }

  // From any state, whatever lists used the picker before, the currents of `nodes` stay
  // between bounds that do not depend on the length of the run, and so does the distance of
  // every node from its exact share.
  lemma {:induction false} BoundedFromAnyState(m: map<string, int>, lists: seq<seq<Node>>, nodes: seq<Node>, low: int, i: nat)
    requires nodes != [] && Distinct(nodes) && Positive(nodes) && Independent(lists, nodes) && i < |nodes|
    requires low == LowerBound(Curs(m, nodes), Sum(Curs(m, nodes)), Total(nodes))
    ensures var sum, start := Sum(Curs(m, nodes)), Cur(m, nodes[i].addr);
            var lag := Turns(lists, nodes) * nodes[i].weight - Total(nodes) * Picks(m, lists, nodes)[i];
            && Sum(Curs(Run(m, lists), nodes)) == sum
            && Cur(Run(m, lists), nodes[i].addr) == start + lag
            && low <= start + lag <= sum - (|nodes| - 1) * low
  {
    hide Run, Total, Distinct, Independent, Turns, Picks, LowerBound;
    var sum := Sum(Curs(m, nodes));
    LowerBoundHolds(Curs(m, nodes), Total(nodes));
    RunHeld(m, lists, nodes, low, sum);
    OneIsBounded(Curs(Run(m, lists), nodes), low, sum, Total(nodes), i);
    Account(m, lists, nodes, i);
  }

  ghost predicate FreshFor(m: map<string, int>, nodes: seq<Node>) {
    forall i :: 0 <= i < |nodes| ==> Cur(m, nodes[i].addr) == 0
  }

  // From zero no current is a whole round behind.
  lemma FreshIsHeld(m: map<string, int>, nodes: seq<Node>)
    requires FreshFor(m, nodes) && Positive(nodes) && nodes != []
    ensures Held(Curs(m, nodes), 1 - Total(nodes), 0, Total(nodes)) && Total(nodes) >= |nodes|
  {
    AllZeroSum(Curs(m, nodes));
    SumAtLeast(Weights(nodes), 1);
  }

  lemma {:induction false} CurrentBounds(m: map<string, int>, lists: seq<seq<Node>>, nodes: seq<Node>, i: nat)
    requires nodes != [] && Distinct(nodes) && Positive(nodes) && Independent(lists, nodes)
    requires FreshFor(m, nodes) && i < |nodes|
    ensures -Total(nodes) < Cur(Run(m, lists), nodes[i].addr) <= (|nodes| - 1) * (Total(nodes) - 1)
  {
    hide Run, Total, Distinct, Independent;
    FreshIsHeld(m, nodes);
    RunHeld(m, lists, nodes, 1 - Total(nodes), 0);
    OneIsBounded(Curs(Run(m, lists), nodes), 1 - Total(nodes), 0, Total(nodes), i);
    assert (|nodes| - 1) * (1 - Total(nodes)) == -((|nodes| - 1) * (Total(nodes) - 1));
  }

  // No node is ever a whole pick ahead of its exact share, nor more than the sum of
  // what the others can be ahead behind it.
  lemma {:induction false} BoundedDeviation(m: map<string, int>, lists: seq<seq<Node>>, nodes: seq<Node>, i: nat)
    requires nodes != [] && Distinct(nodes) && Positive(nodes) && Independent(lists, nodes)
    requires FreshFor(m, nodes) && i < |nodes|
    ensures var lag := Turns(lists, nodes) * nodes[i].weight - Total(nodes) * Picks(m, lists, nodes)[i];
            && Cur(Run(m, lists), nodes[i].addr) == lag
            && -Total(nodes) < lag <= (|nodes| - 1) * (Total(nodes) - 1)
  {
    hide Run, Total, Distinct, Independent, Turns, Picks;
    CurrentBounds(m, lists, nodes, i);
    Account(m, lists, nodes, i);
  }

  // Exact fairness: in T picks from `nodes`, whatever else used the picker in between,
  // node i is hit exactly weight(i) times and every current weight is back at zero.
  lemma {:induction false} ExactFairness(m: map<string, int>, lists: seq<seq<Node>>, nodes: seq<Node>)
    requires nodes != [] && Distinct(nodes) && Positive(nodes) && Independent(lists, nodes)
    requires FreshFor(m, nodes)
    requires Turns(lists, nodes) == Total(nodes)
    ensures Picks(m, lists, nodes) == Weights(nodes)
    ensures FreshFor(Run(m, lists), nodes)
  {
    hide Step, Hit, Run;
    var p, w := Picks(m, lists, nodes), Weights(nodes);
    forall i: nat | i < |nodes| ensures p[i] <= w[i] {
      AtMostItsShare(m, lists, nodes, i);
    }
    assert Sum(p) == Total(nodes) by { Account(m, lists, nodes, 0); }
    SumSqueeze(p, w);
    forall i: nat | i < |nodes| ensures Cur(Run(m, lists), nodes[i].addr) == 0 {
      AtMostItsShare(m, lists, nodes, i);
    }
  }

  lemma {:induction false} AtMostItsShare(m: map<string, int>, lists: seq<seq<Node>>, nodes: seq<Node>, i: nat)
    requires nodes != [] && Distinct(nodes) && Positive(nodes) && Independent(lists, nodes)
    requires FreshFor(m, nodes) && i < |nodes|
    requires Turns(lists, nodes) == Total(nodes)
    ensures Picks(m, lists, nodes)[i] <= nodes[i].weight
    ensures Cur(Run(m, lists), nodes[i].addr) == Total(nodes) * (nodes[i].weight - Picks(m, lists, nodes)[i])
  {
    BoundedDeviation(m, lists, nodes, i);
    NotBehind(Total(nodes), nodes[i].weight, Picks(m, lists, nodes)[i]);
  }

  lemma NotBehind(t: int, w: int, p: int)
    requires t * w - t * p > -t
    requires t >= 0
    ensures t * w - t * p == t * (w - p)
    ensures p <= w
  {
    if p > w {
      MulAtLeast(p - w, t);
    }
  }

  // ---------- the schedule repeats ----------

  // k consecutive picks from the same list.
  ghost function Repeat(nodes: seq<Node>, k: nat): (lists: seq<seq<Node>>)
    ensures |lists| == k
  {
    if k == 0 then [] else Repeat(nodes, k - 1) + [nodes]
  }

  lemma RepeatNone(m: map<string, int>, nodes: seq<Node>)
    ensures Run(m, Repeat(nodes, 0)) == m
  {
  }

  lemma RepeatOne(m: map<string, int>, nodes: seq<Node>, k: nat)
    requires k > 0
    ensures Run(m, Repeat(nodes, k)) == Step(Run(m, Repeat(nodes, k - 1)), nodes)
  {
    assert Repeat(nodes, k)[..k - 1] == Repeat(nodes, k - 1);
  }

  // Two states that agree on the nodes' currents go on hitting the same nodes.
  lemma {:induction false} SameSchedule(m: map<string, int>, m': map<string, int>, nodes: seq<Node>, k: nat)
    requires nodes != [] && Distinct(nodes)
    requires Curs(m, nodes) == Curs(m', nodes)
    ensures Curs(Run(m, Repeat(nodes, k)), nodes) == Curs(Run(m', Repeat(nodes, k)), nodes)
    ensures Hit(Run(m, Repeat(nodes, k)), nodes) == Hit(Run(m', Repeat(nodes, k)), nodes)
  {
    hide Step, Hit;
    if k > 0 {
      SameSchedule(m, m', nodes, k - 1);
      RepeatOne(m, nodes, k);
      RepeatOne(m', nodes, k);
      SameStep(Run(m, Repeat(nodes, k - 1)), Run(m', Repeat(nodes, k - 1)), nodes);
    }
    SameStep(Run(m, Repeat(nodes, k)), Run(m', Repeat(nodes, k)), nodes);
  }

  lemma SameStep(m: map<string, int>, m': map<string, int>, nodes: seq<Node>)
    requires nodes != [] && Distinct(nodes)
    requires Curs(m, nodes) == Curs(m', nodes)
    ensures Hit(m, nodes) == Hit(m', nodes)
    ensures Curs(Step(m, nodes), nodes) == Curs(Step(m', nodes), nodes)
  {
    StepIsVStep(m, nodes);
    StepIsVStep(m', nodes);
  }

  lemma {:induction false} TurnsRepeat(nodes: seq<Node>, k: nat)
    ensures Independent(Repeat(nodes, k), nodes)
    ensures Turns(Repeat(nodes, k), nodes) == k
  {
    if k > 0 {
      TurnsRepeat(nodes, k - 1);
      assert Repeat(nodes, k)[..k - 1] == Repeat(nodes, k - 1);
    }
  }

  // The schedule from a fresh state has period T, the total weight.
  lemma {:induction false} Periodic(m: map<string, int>, nodes: seq<Node>, k: nat, t: nat)
    requires nodes != [] && Distinct(nodes) && Positive(nodes) && FreshFor(m, nodes)
    requires t == Total(nodes)
    ensures Hit(Run(m, Repeat(nodes, k + t)), nodes) == Hit(Run(m, Repeat(nodes, k)), nodes)
    ensures Curs(Run(m, Repeat(nodes, k + t)), nodes) == Curs(Run(m, Repeat(nodes, k)), nodes)
  {
    FullCycle(m, nodes, t);
    SameSchedule(Run(m, Repeat(nodes, t)), m, nodes, k);
    RunRepeat(m, nodes, t, k);
  }

  lemma FullCycle(m: map<string, int>, nodes: seq<Node>, t: nat)
    requires nodes != [] && Distinct(nodes) && Positive(nodes) && FreshFor(m, nodes)
    requires t == Total(nodes)
    ensures Curs(Run(m, Repeat(nodes, t)), nodes) == Curs(m, nodes)
  {
    TurnsRepeat(nodes, t);
    ExactFairness(m, Repeat(nodes, t), nodes);
  }

  lemma {:induction false} RunRepeat(m: map<string, int>, nodes: seq<Node>, j: nat, k: nat)
    ensures Run(m, Repeat(nodes, k + j)) == Run(Run(m, Repeat(nodes, j)), Repeat(nodes, k))
  {
    hide Step, Run, Repeat;
    if k == 0 {
      RepeatNone(Run(m, Repeat(nodes, j)), nodes);
    } else {
      RunRepeat(m, nodes, j, k - 1);
      RepeatOne(m, nodes, k + j);
      RepeatOne(Run(m, Repeat(nodes, j)), nodes, k);
    }
  }

  // Hence every window of T consecutive picks, wherever it starts, is exactly fair.
  lemma {:induction false} EveryWindowIsFair(m: map<string, int>, nodes: seq<Node>, k: nat, t: nat)
    requires nodes != [] && Distinct(nodes) && Positive(nodes) && FreshFor(m, nodes)
    requires t == Total(nodes)
    ensures Picks(Run(m, Repeat(nodes, k)), Repeat(nodes, t), nodes) == Weights(nodes)
  {
    var start := Run(m, Repeat(nodes, k));
    var p := Picks(start, Repeat(nodes, t), nodes);
    forall i: nat | i < |nodes| ensures p[i] == nodes[i].weight {
      WindowAt(m, nodes, k, t, i);
    }
  }

  lemma {:induction false} WindowAt(m: map<string, int>, nodes: seq<Node>, k: nat, t: nat, i: nat)
    requires nodes != [] && Distinct(nodes) && Positive(nodes) && FreshFor(m, nodes)
    requires t == Total(nodes) && i < |nodes|
    ensures Picks(Run(m, Repeat(nodes, k)), Repeat(nodes, t), nodes)[i] == nodes[i].weight
  {
    hide Run, Repeat, Picks, Turns, Total, Distinct, Positive, FreshFor, Hit, Held, Independent;
    var start := Run(m, Repeat(nodes, k));
    Periodic(m, nodes, k, t);
    RunRepeat(m, nodes, k, t);
    assert t + k == k + t;
    TurnsRepeat(nodes, t);
    FreshIsHeld(m, nodes);
    Account(start, Repeat(nodes, t), nodes, i);
    assert Curs(start, nodes)[i] == Curs(Run(m, Repeat(nodes, k + t)), nodes)[i];
    CancelTotal(t, nodes[i].weight, Picks(start, Repeat(nodes, t), nodes)[i]);
  }

  lemma CancelTotal(t: int, w: int, p: int)
    requires t > 0 && t * w - t * p == 0
    ensures w == p
  {
    assert t * (w - p) == 0;
  }

  // ---------- 64-bit range ----------

  predicate FitsInt64(x: int) { -0x8000_0000_0000_0000 <= x < 0x8000_0000_0000_0000 }

  // With n * T < 2^63 no value computed by a pick of a run from zero leaves the range:
  // the partial totals, the bumped weights, the winner's rewritten weight.
  lemma NoOverflow(m: map<string, int>, lists: seq<seq<Node>>, nodes: seq<Node>, i: nat)
    requires nodes != [] && Distinct(nodes) && Positive(nodes) && Independent(lists, nodes)
    requires FreshFor(m, nodes) && i < |nodes|
    requires |nodes| * Total(nodes) < 0x8000_0000_0000_0000
    ensures var c := Run(m, lists);
            && FitsInt64(Cur(c, nodes[i].addr))
            && FitsInt64(Shown(c, nodes)[i])
            && FitsInt64(Sum(Weights(nodes)[..i + 1]))
            && FitsInt64(Cur(Step(c, nodes), nodes[i].addr))
  {
    hide Run, Independent, Step, Bumped, Shown, Distinct, Total;
    CurrentBounds(m, lists, nodes, i);
    PickFits(Run(m, lists), nodes, i);
    OneMore(m, lists, nodes);
    FreshIsHeld(m, nodes);
    CurrentBounds(m, lists + [nodes], nodes, i);
    AtMostTotal(|nodes|, Total(nodes), Cur(Step(Run(m, lists), nodes), nodes[i].addr));
  }

  lemma OneMore(m: map<string, int>, lists: seq<seq<Node>>, nodes: seq<Node>)
    requires Independent(lists, nodes)
    ensures Independent(lists + [nodes], nodes)
    ensures Run(m, lists + [nodes]) == Step(Run(m, lists), nodes)
  {
    assert (lists + [nodes])[..|lists|] == lists;
  }

  lemma PickFits(c: map<string, int>, nodes: seq<Node>, i: nat)
    requires nodes != [] && Distinct(nodes) && Positive(nodes) && i < |nodes|
    requires -Total(nodes) < Cur(c, nodes[i].addr) <= (|nodes| - 1) * (Total(nodes) - 1)
    requires |nodes| * Total(nodes) < 0x8000_0000_0000_0000
    ensures FitsInt64(Cur(c, nodes[i].addr)) && FitsInt64(Shown(c, nodes)[i])
    ensures FitsInt64(Sum(Weights(nodes)[..i + 1]))
  {
    hide Total, Bumped, Shown, Distinct;
    BumpedAt(c, nodes, i);
    PartialTotal(nodes, i);
    RangeArithmetic(|nodes|, Total(nodes), nodes[i].weight, Cur(c, nodes[i].addr), Sum(Weights(nodes)[..i + 1]));
  }

  lemma PartialTotal(nodes: seq<Node>, i: nat)
    requires Positive(nodes) && i < |nodes|
    ensures 0 < nodes[i].weight <= Sum(Weights(nodes)[..i + 1]) <= Total(nodes)
  {
    var ws := Weights(nodes);
    SumPrefix(ws, i);
    SumPrefix(ws, i + 1);
    assert ws[..i + 1][..i] == ws[..i];
  }

  lemma AtMostTotal(n: int, t: int, c: int)
    requires n >= 1 && 0 < t && -t < c <= (n - 1) * (t - 1)
    requires n * t < 0x8000_0000_0000_0000
    ensures FitsInt64(c)
  {
    RangeArithmetic(n, t, t, c, t);
  }

  lemma RangeArithmetic(n: int, t: int, w: int, c: int, part: int)
    requires n >= 1 && 0 < w <= part <= t && -t < c <= (n - 1) * (t - 1)
    requires n * t < 0x8000_0000_0000_0000
    ensures FitsInt64(c) && FitsInt64(c + w) && FitsInt64(part)
  {
    assert (n - 1) * (t - 1) + t == n * t - n + 1;
    assert (n - 1) * t >= 0;
  }
}
