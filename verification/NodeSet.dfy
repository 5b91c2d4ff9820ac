// The node list of one connection: transport/grpc/balancer/node/node.go and weight.go.
module NodeSet {
  import opened SmoothWrr

  // A node as the resolver's balancer gives it; the weight is optional.
  datatype RawNode = RawNode(addr: string, weight: Weight)
  datatype Weight = Unset | Given(value: int)

  const DEFAULT_WEIGHT: int := 100

  function Weighted(n: RawNode): (node: Node) {
    Node(n.addr, if n.weight.Given? then n.weight.value else DEFAULT_WEIGHT)
  }

  type Filter = seq<Node> -> seq<Node>

  function Filtered(nodes: seq<Node>, filters: seq<Filter>): (ns: seq<Node>) {
    if filters == [] then nodes
    else filters[|filters| - 1](Filtered(nodes, filters[..|filters| - 1]))
  }

  // Every filter is given the list that the one ahead of it left.
  ghost predicate IsChain(chain: seq<seq<Node>>, nodes: seq<Node>, filters: seq<Filter>) {
    && |chain| == |filters| + 1
    && chain[0] == nodes
    && forall i :: 0 <= i < |filters| ==> chain[i + 1] == filters[i](chain[i])
  }

  // What a pick from the last list answers and does to the weights.
  ghost predicate PicksFrom(nodes: seq<Node>, list: seq<Node>, w: map<string, int>, w': map<string, int>, r: Result<Node>) {
    if nodes == [] || list == [] then r == NoAvailableNode && w' == w
    else exists hit: nat :: PickOf(w, list, hit, w') && r == Ok(list[hit])
  }

  lemma {:induction false} ChainOf(nodes: seq<Node>, filters: seq<Filter>) returns (chain: seq<seq<Node>>)
    ensures IsChain(chain, nodes, filters)
  {
    chain := [nodes];
    if filters != [] {
      var n := |filters| - 1;
      chain := ChainOf(nodes, filters[..n]);
      chain := chain + [filters[n](chain[n])];
    }
  }

  lemma {:induction false} FilteredIsLast(chain: seq<seq<Node>>, nodes: seq<Node>, filters: seq<Filter>)
    requires IsChain(chain, nodes, filters)
    ensures Filtered(nodes, filters) == chain[|filters|]
  {
    if filters != [] {
      var n := |filters| - 1;
      FilteredIsLast(chain[..n + 1], nodes, filters[..n]);
      assert chain[n + 1] == filters[n](chain[n]);
    }
  }

  // The list a pick is made from; filters do not run on an empty set.
  function Offered(nodes: seq<Node>, filters: seq<Filter>): (ns: seq<Node>) {
    if nodes == [] then [] else Filtered(nodes, filters)
  }

  /** One set; the picker is shared with all other sets. */
  class Set {
    var nodes: seq<Node>
    const picker: Wrr

    constructor (picker: Wrr)
      ensures this.picker == picker && nodes == []
    {
      this.picker, nodes := picker, [];
    }

    // The new list replaces the old one; the picker's weights stay.
    method Save(raw: seq<RawNode>)
      modifies this
      ensures |nodes| == |raw|
      ensures forall i :: 0 <= i < |raw| ==>
                && nodes[i].addr == raw[i].addr
                && (raw[i].weight == Unset ==> nodes[i].weight == 100)
                && (forall v :: raw[i].weight == Given(v) ==> nodes[i].weight == v)
    {
      var wn := [];
      for i := 0 to |raw|
        invariant |wn| == i && forall j :: 0 <= j < i ==> wn[j] == Weighted(raw[j])
      {
        wn := wn + [Weighted(raw[i])];
      }
      nodes := wn;
    }

    // A pick is one step of the shared weights on the filtered list; without a node to
    // pick from it is an error and no step.
    method Pick(filters: seq<Filter>) returns (r: Result<Node>)
      modifies picker
      ensures exists chain :: IsChain(chain, nodes, filters) &&
                PicksFrom(nodes, chain[|filters|], old(picker.weight), picker.weight, r)
      ensures picker.weight == Step(old(picker.weight), Offered(nodes, filters))
      ensures r == if Offered(nodes, filters) == [] then NoAvailableNode
                   else Ok(Offered(nodes, filters)[Hit(old(picker.weight), Offered(nodes, filters))])
    {
      if |nodes| == 0 {
        ghost var lists := ChainOf(nodes, filters);
        return NoAvailableNode;
      }
      var ns := nodes;
      ghost var chain := [nodes];
      for i := 0 to |filters|
        invariant |chain| == i + 1 && chain[0] == nodes && chain[i] == ns
        invariant forall j :: 0 <= j < i ==> chain[j + 1] == filters[j](chain[j])
      {
        ns := filters[i](ns);
        chain := chain + [ns];
      }
      FilteredIsLast(chain, nodes, filters);
      if |filters| == 0 {
        ns := nodes;
      }
      if |ns| == 0 {
        assert IsChain(chain, nodes, filters);
        return NoAvailableNode;
      }
      ghost var hit;
      r, hit := picker.Pick(ns);
      assert IsChain(chain, nodes, filters) && PicksFrom(nodes, chain[|filters|], old(picker.weight), picker.weight, r);
    }
  }
}
