// The configuration object: config/config.go.  A tree of merged layers and beside it a
// flat cache that answers lookups first.  Load and lookup are atomic steps here.
module Config {
  import opened Wrappers
  import opened Paths
  import opened ConfigTree

  // A cached value that is no map, or the map that the tree itself holds at the key: merges
  // and walks write into that map and never put another one in its place, so what the cache
  // reads there is what the tree holds now.
  datatype Entry = Stored(value: Value) | Shared

  datatype State = State(changed: Tree, cached: map<string, Entry>)

  const EMPTY: State := State(map[], map[])

  // What is cached for a value the walk found.
  function EntryOf(v: Value): (e: Entry) { if v.Node? then Shared else Stored(v) }

  // What the entry of a key reads.
  function Read(t: Tree, key: string, e: Entry): (v: Value) {
    match e
    case Stored(x) => x
    case Shared => ValueAt(t, Split(key))
  }

  // Every leaf of the tree is in the cache with its current value.
  ghost predicate Coherent(s: State) {
    forall p: string :: LeafAt(Node(s.changed), Split(p)).Some? ==>
      p in s.cached && s.cached[p] == Stored(LeafAt(Node(s.changed), Split(p)).value)
  }

  ghost predicate Ok(s: State) {
    WellFormed(s.changed) && Coherent(s)
  }

  // s becomes s' by loading cfg: the layers are merged and every leaf is cached.
  ghost predicate Loads(s: State, cfg: Tree, s': State) {
    && s'.changed == Merge(s.changed, cfg)
    && forall p: string ::
         var leaf := LeafAt(Node(s'.changed), Split(p));
         if leaf.Some? then p in s'.cached && s'.cached[p] == Stored(leaf.value)
         else (p in s'.cached <==> p in s.cached) && (p in s.cached ==> s'.cached[p] == s.cached[p])
  }

  // s becomes s' by a lookup that answers v.
  ghost predicate Finds(s: State, key: string, v: Value, s': State) {
    var paths := Split(key);
    if key in s.cached then v == Read(s.changed, key, s.cached[key]) && s' == s
    else
      && v == ValueAt(s.changed, paths)
      && s'.changed == Search(s.changed, paths[..|paths| - 1]).left
      && s'.cached == s.cached[key := EntryOf(v)]
  }

  class Config {
    var changed: Tree
    var cached: map<string, Entry>

    ghost function Value(): (r: State)
      reads this
    {
      State(changed, cached)
    }

    constructor ()
      ensures Value() == EMPTY && Ok(Value())
    {
      changed, cached := map[], map[];
    }

    method Apply(cfg: Tree)
      requires WellFormed(changed) && WellFormed(cfg)
      modifies this
      ensures Loads(old(Value()), cfg, Value())
    {
      hide WellFormed, LeafAt, Split, Merge, Flattens;
      MergeWellFormed(changed, cfg);
      changed := MergeInto(changed, cfg);
      assert DotFreeKeys(Node(changed)) && "" !in changed by { Unfold(changed); }
      assert IsPrefix([], "");
      var data := Spread(changed, "", []);
      var changes: map<string, Value> := map[];
      var todo := data.Keys;
      ghost var before := cached;
      while todo != {}
        invariant todo <= data.Keys
        invariant forall k: string ::
                    if k in data && k !in todo then k in cached && cached[k] == Stored(data[k])
                    else (k in cached <==> k in before) && (k in before ==> cached[k] == before[k])
        invariant changed == Merge(old(changed), cfg)
        decreases todo
      {
        var k :| k in todo;
        var v := data[k];
        if k in cached && cached[k] != Stored(v) {
          changes := changes[k := v];
        }
        cached := cached[k := Stored(v)];
        todo := todo - {k};
      }
      forall p: string
        ensures LeafAt(Node(changed), Split(p)) == if p in data then Some(data[p]) else None
      {
        FlatKeys(changed, data, p);
      }
    }

    method Find(key: string) returns (data: Value)
      modifies this
      ensures Finds(old(Value()), key, data, Value())
    {
      if key in cached {
        return Read(changed, key, cached[key]);
      }
      var paths := Split(key);
      var m, left := DeepSearch(changed, paths[..|paths| - 1]);
      SearchFinds(changed, paths);
      var last := paths[|paths| - 1];
      data := if last in m then m[last] else Nil;
      changed := left;
      cached := cached[key := EntryOf(data)];
    }
  }

  lemma Unfold(t: Tree)
    requires WellFormed(t)
    ensures DotFreeKeys(Node(t)) && "" !in t
  {
  }

  // ---------- coherence over whole runs ----------

  lemma LoadKeepsOk(s: State, cfg: Tree, s': State)
    requires Ok(s) && WellFormed(cfg) && Loads(s, cfg, s')
    ensures Ok(s')
  {
    hide WellFormed, LeafAt, Split, Merge;
    MergeWellFormed(s.changed, cfg);
  }

  lemma FindKeepsOk(s: State, key: string, v: Value, s': State)
    requires Ok(s) && Finds(s, key, v, s')
    ensures Ok(s')
  {
    hide WellFormed, LeafAt, Split, Search;
    if key !in s.cached {
      var parts := Split(key);
      var path := parts[..|parts| - 1];
      SplitDotFree(key);
      SearchWellFormed(s.changed, path);
      forall p: string | LeafAt(Node(s'.changed), Split(p)).Some?
        ensures p in s'.cached && s'.cached[p] == Stored(LeafAt(Node(s'.changed), Split(p)).value)
      {
        SearchLeaves(s.changed, path, Split(p));
        assert p in s.cached;
      }
    }
  }

  // On a leaf path a lookup answers the leaf, from the cache or by the walk, and leaves
  // tree and cache alone.
  lemma LeafIsFound(s: State, key: string, v: Value, s': State)
    requires Ok(s) && Finds(s, key, v, s') && LeafAt(Node(s.changed), Split(key)).Some?
    ensures Some(v) == LeafAt(Node(s.changed), Split(key)) && v == ValueAt(s.changed, Split(key))
    ensures s' == s
  {
    assert key in s.cached;
  }

  datatype Op = Load(cfg: Tree) | Lookup(key: string, answer: Value)

  ghost predicate Does(s: State, op: Op, s': State) {
    match op
    case Load(cfg) => WellFormed(cfg) && Loads(s, cfg, s')
    case Lookup(key, answer) => Finds(s, key, answer, s')
  }

  // The states of a run: one more than its operations.
  ghost predicate IsRun(states: seq<State>, ops: seq<Op>) {
    && |states| == |ops| + 1
    && states[0] == EMPTY
    && forall i :: 0 <= i < |ops| ==> Does(states[i], ops[i], states[i + 1])
  }

  // Coherence in every state of every run of loads and lookups, whatever the lookups
  // cached for absent keys and whatever their walks wrote into the tree.
  lemma {:induction false} RunIsCoherent(states: seq<State>, ops: seq<Op>, n: nat)
    requires IsRun(states, ops) && n < |states|
    ensures Ok(states[n])
  {
    hide Ok;
    if n == 0 {
      EmptyOk();
    } else {
      RunIsCoherent(states, ops, n - 1);
      assert Does(states[n - 1], ops[n - 1], states[n - 1 + 1]);
      match ops[n - 1]
      case Load(cfg) => LoadKeepsOk(states[n - 1], cfg, states[n]);
      case Lookup(key, answer) => FindKeepsOk(states[n - 1], key, answer, states[n]);
    }
  }

  lemma EmptyOk()
    ensures Ok(EMPTY)
  {
    forall p: string ensures LeafAt(Node(map[]), Split(p)) == None {
    }
  }

  // Hence in every run a lookup of a leaf answers what the tree holds.
  lemma RunAnswersLeaves(states: seq<State>, ops: seq<Op>, n: nat)
    requires IsRun(states, ops) && n < |ops| && ops[n].Lookup?
    requires LeafAt(Node(states[n].changed), Split(ops[n].key)).Some?
    ensures Some(ops[n].answer) == LeafAt(Node(states[n].changed), Split(ops[n].key))
    ensures states[n + 1] == states[n]
  {
    RunIsCoherent(states, ops, n);
    assert Does(states[n], ops[n], states[n + 1]);
    LeafIsFound(states[n], ops[n].key, ops[n].answer, states[n + 1]);
  }

  // ---------- when a loaded layer takes effect ----------

  // The destination has nothing at the path and nothing in its way, or a leaf of v's type.
  predicate Fits(t: Tree, path: seq<string>, v: Value) {
    match At(Node(t), path)
    case Some(Leaf(j, _)) => v.Leaf? && v.kind == j
    case Some(Nil) => v == Nil
    case Some(Node(_)) => false
    case None => !Obstructed(Node(t), path)
  }

  // A leaf of a loaded layer is in the merged tree exactly when it fits or was there already.
  lemma LayerTakesEffectIff(t: Tree, cfg: Tree, path: seq<string>)
    requires LeafAt(Node(cfg), path).Some?
    ensures var v := LeafAt(Node(cfg), path).value;
            LeafAt(Node(Merge(t, cfg)), path) == Some(v) <==> Fits(t, path, v)
  {
    var v := LeafAt(Node(cfg), path).value;
    MergeAt(Node(t), Node(cfg), path);
    if At(Node(t), path).Some? {
      MergeKeepsType(At(Node(t), path).value, v);
    }
  }

  // So right after the load a lookup of a leaf that fits answers the layer's value.
  lemma LoadThenFind(s: State, cfg: Tree, s': State, key: string)
    requires Ok(s) && WellFormed(cfg) && Loads(s, cfg, s')
    ensures var leaf := LeafAt(Node(cfg), Split(key));
            leaf.Some? && Fits(s.changed, Split(key), leaf.value) ==>
              forall v, s'' :: Finds(s', key, v, s'') ==> v == leaf.value
  {
    hide Split, LeafAt, Merge, Fits;
    LoadKeepsOk(s, cfg, s');
    var leaf := LeafAt(Node(cfg), Split(key));
    if leaf.Some? && Fits(s.changed, Split(key), leaf.value) {
      LayerTakesEffectIff(s.changed, cfg, Split(key));
      forall v, s'' | Finds(s', key, v, s'') ensures v == leaf.value {
        LeafIsFound(s', key, v, s'');
      }
    }
  }

  // ---------- cached maps ----------

  // The cache holds the tree's own map at the key.
  ghost predicate Sharing(s: State, key: string) {
    key in s.cached && s.cached[key] == Shared && IsMap(At(Node(s.changed), Split(key)))
  }

  lemma FindShares(s: State, key: string, v: Value, s': State)
    requires key !in s.cached && Finds(s, key, v, s') && v.Node?
    ensures Sharing(s', key)
  {
    hide Split, Search;
    SearchKeepsMaps(s.changed, Split(key)[..|Split(key)| - 1], Split(key));
  }

  lemma StepKeepsSharing(s: State, op: Op, s': State, key: string)
    requires Sharing(s, key) && Does(s, op, s')
    ensures Sharing(s', key)
    ensures op.Lookup? && op.key == key ==> op.answer == ValueAt(s.changed, Split(key)) && op.answer.Node?
  {
    hide Split, Search, Merge;
    match op
    case Load(cfg) => MergeLaws(s.changed, cfg, Split(key));
    case Lookup(other, _) => SearchKeepsMaps(s.changed, Split(other)[..|Split(other)| - 1], Split(key));
  }

  // Once a lookup has answered a map, every later lookup of its key, through any run, answers
  // the map that the tree holds then, with all that was merged into it.
  lemma {:induction false} SharedForever(states: seq<State>, ops: seq<Op>, key: string, n: nat)
    requires |states| == |ops| + 1 && forall i :: 0 <= i < |ops| ==> Does(states[i], ops[i], states[i + 1])
    requires Sharing(states[0], key) && n <= |ops|
    ensures Sharing(states[n], key)
    ensures forall i :: 0 <= i < n && ops[i].Lookup? && ops[i].key == key ==>
              ops[i].answer == ValueAt(states[i].changed, Split(key)) && ops[i].answer.Node?
  {
    hide Sharing, Does, Split;
    if n > 0 {
      SharedForever(states, ops, key, n - 1);
      assert Does(states[n - 1], ops[n - 1], states[n - 1 + 1]);
      StepKeepsSharing(states[n - 1], ops[n - 1], states[n], key);
    }
  }

  // ---------- what does not hold ----------

  // What a run keeps of every cached entry: a stored value is no map, and it is the tree's
  // value unless the tree holds a map there; where the map is shared the tree holds it.
  ghost predicate Settles(t: Tree, key: string, e: Entry) {
    var v := At(Node(t), Split(key));
    match e
    case Stored(x) => !x.Node? && (IsMap(v) || x == ValueAt(t, Split(key)))
    case Shared => IsMap(v)
  }

  ghost predicate Settled(s: State) {
    forall k: string :: k in s.cached ==> Settles(s.changed, k, s.cached[k])
  }

  lemma LoadKeepsSettled(s: State, cfg: Tree, s': State)
    requires Settled(s) && Loads(s, cfg, s')
    ensures Settled(s')
  {
    hide Split, Merge;
    forall k: string | k in s'.cached
      ensures Settles(s'.changed, k, s'.cached[k])
    {
      MergeLaws(s.changed, cfg, Split(k));
    }
  }

  lemma FindKeepsSettled(s: State, key: string, v: Value, s': State)
    requires Settled(s) && Finds(s, key, v, s')
    ensures Settled(s')
  {
    hide Split, Search;
    if key !in s.cached {
      var path := Split(key)[..|Split(key)| - 1];
      forall k: string | k in s'.cached
        ensures Settles(s'.changed, k, s'.cached[k])
      {
        SearchKeepsValue(s.changed, path, Split(k));
      }
    }
  }

  // A walk leaves a map or the old value at every path, and maps stay maps.
  lemma SearchKeepsValue(t: Tree, path: seq<string>, q: seq<string>)
    ensures var left := Search(t, path).left;
            && (IsMap(At(Node(t), q)) ==> IsMap(At(Node(left), q)))
            && (IsMap(At(Node(left), q)) || ValueAt(left, q) == ValueAt(t, q))
  {
    hide Search;
    if IsMap(At(Node(t), q)) {
      SearchKeepsMaps(t, path, q);
    } else {
      SearchLeaves(t, path, q);
      if q <= path && |q| >= 2 && LeafAt(Node(t), q).Some? {
        LeafIsBelowMap(t, q);
        SearchMakesMap(t, path, q);
      }
    }
  }

  lemma {:induction false} RunIsSettled(states: seq<State>, ops: seq<Op>, n: nat)
    requires IsRun(states, ops) && n < |states|
    ensures Settled(states[n])
  {
    hide Settled;
    if n == 0 {
      EmptySettled();
    } else {
      RunIsSettled(states, ops, n - 1);
      assert Does(states[n - 1], ops[n - 1], states[n - 1 + 1]);
      match ops[n - 1]
      case Load(cfg) => LoadKeepsSettled(states[n - 1], cfg, states[n]);
      case Lookup(key, answer) => FindKeepsSettled(states[n - 1], key, answer, states[n]);
    }
  }

  // A path that holds a map once in a run holds one ever after: this is why a cached map can
  // be read in the tree.
  lemma {:induction false} MapsStay(states: seq<State>, ops: seq<Op>, i: nat, n: nat, path: seq<string>)
    requires IsRun(states, ops) && i <= n < |states|
    requires IsMap(At(Node(states[i].changed), path))
    ensures IsMap(At(Node(states[n].changed), path))
  {
    hide Search, Merge;
    if i < n {
      MapsStay(states, ops, i, n - 1, path);
      var s := states[n - 1];
      assert Does(s, ops[n - 1], states[n - 1 + 1]);
      match ops[n - 1]
      case Load(cfg) => MergeLaws(s.changed, cfg, path);
      case Lookup(key, _) => SearchKeepsMaps(s.changed, Split(key)[..|Split(key)| - 1], path);
    }
  }

  lemma EmptySettled()
    ensures Settled(EMPTY)
  {
  }

  // The exact condition, in every state of every run: an entry reads the tree's value unless
  // it stores a value where the tree holds a map.
  lemma EntryIsStaleIff(states: seq<State>, ops: seq<Op>, n: nat, key: string)
    requires IsRun(states, ops) && n < |states| && key in states[n].cached
    ensures var t, e := states[n].changed, states[n].cached[key];
            Read(t, key, e) == ValueAt(t, Split(key)) <==> !(e.Stored? && IsMap(At(Node(t), Split(key))))
  {
    hide Split;
    RunIsSettled(states, ops, n);
    assert Settles(states[n].changed, key, states[n].cached[key]);
  }

  // Some operation of the run, none later than the n-th, found no map at the key and left the
  // key cached.
  ghost predicate CachedWithoutMap(states: seq<State>, n: nat, key: string)
    requires n < |states|
  {
    exists i: nat :: i < n && key in states[i + 1].cached && !IsMap(At(Node(states[i].changed), Split(key)))
  }

  // That is when an entry stores a value.
  lemma {:induction false} StoredIff(states: seq<State>, ops: seq<Op>, n: nat, key: string)
    requires IsRun(states, ops) && n < |states|
    ensures key in states[n].cached && states[n].cached[key].Stored? <==> CachedWithoutMap(states, n, key)
  {
    hide Split, Settled, Does, CachedWithoutMap;
    CachedOneMore(states, n, key);
    if n > 0 {
      var s, s' := states[n - 1], states[n];
      StoredIff(states, ops, n - 1, key);
      RunIsSettled(states, ops, n - 1);
      assert Does(s, ops[n - 1], states[n - 1 + 1]);
      StoredStep(s, ops[n - 1], s', key);
    }
  }

  lemma CachedOneMore(states: seq<State>, n: nat, key: string)
    requires n < |states|
    ensures CachedWithoutMap(states, n, key) <==>
              n > 0 && (CachedWithoutMap(states, n - 1, key)
                        || (key in states[n].cached && !IsMap(At(Node(states[n - 1].changed), Split(key)))))
  {
    hide Split, At;
    if n > 0 {
      if key in states[n].cached && !IsMap(At(Node(states[n - 1].changed), Split(key))) {
        assert key in states[n - 1 + 1].cached;
      }
      if CachedWithoutMap(states, n - 1, key) {
        var i: nat :| i < n - 1 && key in states[i + 1].cached && !IsMap(At(Node(states[i].changed), Split(key)));
      }
    }
  }

  lemma StoredStep(s: State, op: Op, s': State, key: string)
    requires Settled(s) && Does(s, op, s')
    ensures key in s'.cached && s'.cached[key].Stored? <==>
              || (key in s.cached && s.cached[key].Stored?)
              || (key in s'.cached && !IsMap(At(Node(s.changed), Split(key))))
  {
    hide Split, Merge, Search;
    if key in s.cached {
      assert Settles(s.changed, key, s.cached[key]);
    }
    if op.Load? {
      MergeLaws(s.changed, op.cfg, Split(key));
    }
  }

  // So a lookup of a run answers what the tree holds, unless the tree holds a map at the key
  // and an earlier operation found none there and left the key cached.
  lemma AnswerIsRightIff(states: seq<State>, ops: seq<Op>, n: nat)
    requires IsRun(states, ops) && n < |ops| && ops[n].Lookup?
    ensures var t, key := states[n].changed, ops[n].key;
            ops[n].answer == ValueAt(t, Split(key)) <==>
              !(CachedWithoutMap(states, n, key) && IsMap(At(Node(t), Split(key))))
  {
    hide Split, CachedWithoutMap, Settled;
    assert Does(states[n], ops[n], states[n + 1]);
    StoredIff(states, ops, n, ops[n].key);
    if ops[n].key in states[n].cached {
      EntryIsStaleIff(states, ops, n, ops[n].key);
    }
  }

  // Not only layers make maps: the first lookup of a key below an absent one does, when the
  // first component leads into a map.
  lemma LookupBelowMakesMap(s: State, key: string, below: string, answer: Value, s': State)
    requires below !in s.cached && Finds(s, below, answer, s')
    requires |Split(key)| >= 2 && Split(key) <= Split(below)[..|Split(below)| - 1]
    requires IsMap(At(Node(s.changed), Split(key)[..1]))
    ensures IsMap(At(Node(s'.changed), Split(key)))
  {
    hide Split, Search;
    SearchMakesMap(s.changed, Split(below)[..|Split(below)| - 1], Split(key));
  }

  const B_IS_1: Tree := map["a" := Node(map["b" := Leaf(0, 1)])]

  // The cache is not coherent on maps: after a lookup of an absent key, a layer that makes
  // the key a map does not show.
  lemma MapsGoStale(s: State, s': State, v: Value, s'': State)
    requires Finds(EMPTY, "a", Nil, s) && Loads(s, B_IS_1, s')
    requires Finds(s', "a", v, s'')
    ensures v == Nil && ValueAt(s'.changed, Split("a")) == B_IS_1["a"]
  {
    hide Split, Merge, At, LeafAt, Search;
    SplitPart("a");
    MergeIntoEmpty(B_IS_1);
    AIsMap();
    NothingFound("a");
    assert LeafAt(Node(s'.changed), Split("a")) == None;
  }

  lemma AIsMap()
    ensures LeafAt(Node(B_IS_1), ["a"]) == None && ValueAt(B_IS_1, ["a"]) == B_IS_1["a"]
  {
    assert ["a"][1..] == [];
  }

  // A lookup of one component leaves an empty tree alone.
  lemma NothingFound(part: string)
    ensures Search(map[], [part][..0]).left == map[]
  {
  }

  // The tree holds a map where the cache still answers an old leaf.
  ghost predicate Frozen(s: State, key: string, leaf: Value) {
    && IsMap(At(Node(s.changed), Split(key)))
    && key in s.cached && s.cached[key] == Stored(leaf) && !leaf.Node?
  }

  // A lookup is not read-only: the first lookup of a key below a nested leaf replaces the
  // leaf by a map, while the cache keeps answering the leaf.
  lemma LookupBelowLeafFreezes(s: State, key: string, leaf: Value, below: string, answer: Value, s': State)
    requires Ok(s) && LeafAt(Node(s.changed), Split(key)) == Some(leaf) && |Split(key)| >= 2
    requires below !in s.cached && Split(key) <= Split(below)[..|Split(below)| - 1]
    requires Finds(s, below, answer, s')
    ensures Frozen(s', key, leaf)
  {
    hide Split, Search;
    assert key in s.cached;
    LeafIsBelowMap(s.changed, Split(key));
    SearchMakesMap(s.changed, Split(below)[..|Split(below)| - 1], Split(key));
  }

  // It happens: load a layer with a leaf at a.b, look up a.b.c.
  lemma LookupFreezes(s: State, answer: Value, s': State)
    requires Loads(EMPTY, B_IS_1, s) && Finds(s, "a.b.c", answer, s')
    ensures Frozen(s', "a.b", Leaf(0, 1))
  {
    hide Split, Join, Merge, Ok, Frozen, LeafAt;
    ABIsLeaf();
    SplitsOfAB();
    EmptyOk();
    MergeIntoEmpty(B_IS_1);
    LoadKeepsOk(EMPTY, B_IS_1, s);
    assert "a.b.c" !in s.cached;
    LookupBelowLeafFreezes(s, "a.b", Leaf(0, 1), "a.b.c", answer, s');
  }

  lemma SplitsOfAB()
    ensures Split("a.b") == ["a", "b"] && Split("a.b.c") == ["a", "b", "c"]
  {
    hide Split;
    SplitPart("a");
    SplitMore("a", "b");
    assert "a" + "." + "b" == "a.b";
    SplitMore("a.b", "c");
    assert "a.b" + "." + "c" == "a.b.c";
  }

  lemma ABIsLeaf()
    ensures LeafAt(Node(B_IS_1), ["a", "b"]) == Some(Leaf(0, 1)) && WellFormed(B_IS_1)
    ensures LeafAt(Node(B_IS_1), ["a", "b", "c"]) == None
  {
    assert ["a", "b"][1..] == ["b"] && ["b"][1..] == [];
    assert ["a", "b", "c"][1..] == ["b", "c"] && ["b", "c"][1..] == ["c"];
  }

  lemma MergeIntoEmpty(cfg: Tree)
    ensures Merge(map[], cfg) == cfg
  {
  }

  lemma LoadKeepsFrozen(s: State, key: string, leaf: Value, cfg: Tree, s': State)
    requires Frozen(s, key, leaf) && Loads(s, cfg, s')
    ensures Frozen(s', key, leaf)
  {
    hide Split;
    MergeAt(Node(s.changed), Node(cfg), Split(key));
    assert LeafAt(Node(s'.changed), Split(key)) == None;
  }

  lemma FindKeepsFrozen(s: State, key: string, leaf: Value, other: string, answer: Value, s': State)
    requires Frozen(s, key, leaf) && Finds(s, other, answer, s')
    ensures Frozen(s', key, leaf)
    ensures other == key ==> answer == leaf
  {
    hide Split, Search;
    SearchKeepsMaps(s.changed, Split(other)[..|Split(other)| - 1], Split(key));
  }

  lemma StepKeepsFrozen(s: State, key: string, leaf: Value, op: Op, s': State)
    requires Frozen(s, key, leaf) && Does(s, op, s')
    ensures Frozen(s', key, leaf)
    ensures op.Lookup? && op.key == key ==> op.answer == leaf
  {
    hide Frozen, Loads, Finds;
    match op
    case Load(cfg) => LoadKeepsFrozen(s, key, leaf, cfg, s');
    case Lookup(other, answer) => FindKeepsFrozen(s, key, leaf, other, answer, s');
  }

  // From then on, through any run of loads and lookups, every lookup of the leaf answers
  // the old value, whatever the loaded layers say.
  lemma {:induction false} FrozenForever(states: seq<State>, ops: seq<Op>, key: string, leaf: Value, n: nat)
    requires |states| == |ops| + 1 && forall i :: 0 <= i < |ops| ==> Does(states[i], ops[i], states[i + 1])
    requires Frozen(states[0], key, leaf) && n <= |ops|
    ensures Frozen(states[n], key, leaf)
    ensures forall i :: 0 <= i < n && ops[i].Lookup? && ops[i].key == key ==> ops[i].answer == leaf
  {
    hide Frozen, Does;
    if n > 0 {
      FrozenForever(states, ops, key, leaf, n - 1);
      assert Does(states[n - 1], ops[n - 1], states[n - 1 + 1]);
      StepKeepsFrozen(states[n - 1], key, leaf, ops[n - 1], states[n]);
    }
  }
}
