// Layered configuration trees: config/map.go.
//
// A tree is a value here: every map has one place in it.  The writes that a walk makes to
// the maps below the top level change the tree.
module ConfigTree {
  import opened Wrappers
  import opened Paths

  // nil, a leaf of some dynamic type, or a string-keyed map.
  datatype Value = Nil | Leaf(kind: int, data: int) | Node(m: Tree)

  type Tree = map<string, Value>

  // reflect.TypeOf(a) == reflect.TypeOf(b).
  predicate SameType(a: Value, b: Value) {
    match (a, b)
    case (Nil, Nil) => true
    case (Leaf(j, _), Leaf(k, _)) => j == k
    case (Node(_), Node(_)) => true
    case _ => false
  }

  // ---------- merge ----------

  function MergeValue(d: Value, s: Value): (r: Value)
    decreases d
  {
    if !SameType(d, s) then d
    else if !d.Node? then s
    else
      Node(map k | k in d.m.Keys + s.m.Keys ::
        if k !in d.m then s.m[k]
        else if k !in s.m then d.m[k]
        else MergeValue(d.m[k], s.m[k]))
  }

  function Merge(d: Tree, s: Tree): (r: Tree) {
    MergeValue(Node(d), Node(s)).m
  }

  lemma MergeKey(d: Tree, s: Tree, k: string)
    requires k in s
    ensures k in Merge(d, s) && Merge(d, s)[k] == if k in d then MergeValue(d[k], s[k]) else s[k]
    ensures k in d ==> (SameType(d[k], s[k]) <==> SameType(s[k], d[k]))
  {
  }

  /** merge, with the keys of src in any order. */
  method MergeInto(dest: Tree, src: Tree) returns (r: Tree)
    ensures r == Merge(dest, src)
    ensures forall path :: MergesTo(At(Node(dest), path), At(Node(src), path), Obstructed(Node(dest), path), At(Node(r), path))
    decreases Node(dest)
  {
    hide MergesTo, At, Obstructed;
    r := dest;
    var todo := src.Keys;
    while todo != {}
      invariant todo <= src.Keys
      invariant r.Keys == dest.Keys + (src.Keys - todo)
      invariant forall k :: k in r ==>
                  r[k] == if k in src && k !in todo then Merge(dest, src)[k] else dest[k]
      decreases todo
    {
      var sk :| sk in todo;
      var sv := src[sk];
      todo := todo - {sk};
      MergeKey(dest, src, sk);
      if sk !in r {
        r := r[sk := sv];
        continue;
      }
      var tv := r[sk];
      if !SameType(sv, tv) {
        continue;
      }
      match tv
      case Node(ttv) =>
        var merged := MergeInto(ttv, sv.m);
        r := r[sk := Node(merged)];
      case _ =>
        r := r[sk := sv];
    }
    assert r == Merge(dest, src);
    MergesEverywhere(dest, src);
  }

  lemma MergesEverywhere(d: Tree, s: Tree)
    ensures forall path ::
              MergesTo(At(Node(d), path), At(Node(s), path), Obstructed(Node(d), path), At(Node(Merge(d, s)), path))
  {
    hide MergesTo, At, Obstructed, Merge;
    forall path
      ensures MergesTo(At(Node(d), path), At(Node(s), path), Obstructed(Node(d), path), At(Node(Merge(d, s)), path))
    {
      MergeLaws(d, s, path);
    }
  }

  // The value at a path.
  function At(v: Value, path: seq<string>): (r: Option<Value>) {
    if path == [] then Some(v)
    else if v.Node? && path[0] in v.m then At(v.m[path[0]], path[1..])
    else None
  }

  // A value that is not a map stands in the way of the path.
  predicate Obstructed(v: Value, path: seq<string>) {
    if path == [] then false
    else if !v.Node? then true
    else path[0] in v.m && Obstructed(v.m[path[0]], path[1..])
  }

  // What a merge holds at every path: the destination's paths stay, a path of the source
  // alone is taken over unless the destination has a non-map on the way, and where both
  // have a value the two are merged.
  lemma {:induction false} MergeAt(d: Value, s: Value, path: seq<string>)
    requires d.Node? && s.Node?
    ensures At(MergeValue(d, s), path) ==
            match (At(d, path), At(s, path))
            case (Some(x), Some(y)) => Some(MergeValue(x, y))
            case (Some(x), None) => Some(x)
            case (None, Some(y)) => if Obstructed(d, path) then None else Some(y)
            case (None, None) => None
    decreases path
  {
    if path != [] {
      var k := path[0];
      if k in d.m && k in s.m {
        var x, y := d.m[k], s.m[k];
        if x.Node? && y.Node? {
          MergeAt(x, y, path[1..]);
        } else {
          BelowLeaf(x, path[1..]);
          BelowLeaf(y, path[1..]);
          NotBelowMap(x, path[1..]);
          BelowLeaf(MergeValue(x, y), path[1..]);
        }
      } else if k in s.m {
        assert !Obstructed(d, path);
      }
    }
  }

  lemma BelowLeaf(v: Value, path: seq<string>)
    ensures !v.Node? && path != [] ==> At(v, path) == None && Obstructed(v, path)
  {
  }

  // A path that is there is not obstructed.
  lemma {:induction false} NotBelowMap(v: Value, path: seq<string>)
    ensures At(v, path).Some? ==> !Obstructed(v, path)
  {
    if path != [] && v.Node? && path[0] in v.m {
      NotBelowMap(v.m[path[0]], path[1..]);
    }
  }

  // What a merge leaves at a path where the destination held x and the source y.  The
  // destination keeps its paths, a map stays a map, and any other value is replaced only by
  // one of its own dynamic type; a path of the source alone is added unless the destination
  // has a non-map on its way.
  predicate MergesTo(x: Option<Value>, y: Option<Value>, obstructed: bool, r: Option<Value>) {
    match (x, y)
    case (None, _) => r == if obstructed then None else y
    case (Some(Node(_)), _) => r.Some? && r.value.Node?
    case (Some(Leaf(j, a)), Some(Leaf(k, b))) => r == Some(if j == k then Leaf(k, b) else Leaf(j, a))
    case (Some(_), _) => r == x
  }

  // The laws of merge, path by path.
  lemma MergeLaws(d: Tree, s: Tree, path: seq<string>)
    ensures MergesTo(At(Node(d), path), At(Node(s), path), Obstructed(Node(d), path), At(Node(Merge(d, s)), path))
  {
    hide MergeValue;
    MergeKeepsType(Node(d), Node(s));
    MergeAt(Node(d), Node(s), path);
    if At(Node(d), path).Some? {
      MergeKeepsType(At(Node(d), path).value, At(Node(d), path).value);
      if At(Node(s), path).Some? {
        MergeKeepsType(At(Node(d), path).value, At(Node(s), path).value);
      }
    }
  }

  // The merged value keeps the destination's type; the source's data wins exactly between
  // two values of one type that are not maps.
  lemma MergeKeepsType(d: Value, s: Value)
    ensures SameType(MergeValue(d, s), d)
    ensures !d.Node? ==> MergeValue(d, s) == if SameType(d, s) then s else d
    ensures d.Node? && !s.Node? ==> MergeValue(d, s) == d
  {
  }

  lemma {:induction false} MergeSelf(v: Value)
    ensures MergeValue(v, v) == v
  {
    if v.Node? {
      forall k | k in v.m ensures MergeValue(v, v).m[k] == v.m[k] {
        MergeSelf(v.m[k]);
      }
      assert MergeValue(v, v).m == v.m;
    }
  }

  lemma {:induction false} MergeIdempotent(d: Value, s: Value)
    ensures MergeValue(MergeValue(d, s), s) == MergeValue(d, s)
    decreases d
  {
    if d.Node? && s.Node? {
      var a := MergeValue(d, s);
      var b := MergeValue(a, s);
      forall k | k in a.m ensures b.m[k] == a.m[k] {
        if k in d.m && k in s.m {
          MergeIdempotent(d.m[k], s.m[k]);
        } else if k in s.m {
          MergeSelf(s.m[k]);
        }
      }
      assert b.m == a.m;
    }
  }

  // ---------- well-formed keys ----------

  // Keys hold no delimiter.
  predicate DotFreeKeys(v: Value) {
    v.Node? ==> forall k :: k in v.m ==> DotFree(k) && DotFreeKeys(v.m[k])
  }

  // And at the top level they are not empty.
  predicate WellFormed(t: Tree) {
    DotFreeKeys(Node(t)) && "" !in t
  }

  lemma {:induction false} MergeDotFree(d: Value, s: Value)
    requires DotFreeKeys(d) && DotFreeKeys(s)
    ensures DotFreeKeys(MergeValue(d, s))
    decreases d
  {
    if d.Node? && s.Node? {
      forall k | k in d.m && k in s.m ensures DotFreeKeys(MergeValue(d.m[k], s.m[k])) {
        MergeDotFree(d.m[k], s.m[k]);
      }
    }
  }

  lemma MergeWellFormed(d: Tree, s: Tree)
    requires WellFormed(d) && WellFormed(s)
    ensures WellFormed(Merge(d, s))
  {
    MergeDotFree(Node(d), Node(s));
  }

  // ---------- flattening ----------

  // The leaf at a path: a value that is not a map.
  function LeafAt(v: Value, path: seq<string>): (r: Option<Value>) {
    match At(v, path)
    case Some(x) => if x.Node? then None else Some(x)
    case None => None
  }

  // The leaf that a flat key names below the components `pre`.
  function LeafBelow(pre: seq<string>, t: Tree, p: string): (r: Option<Value>) {
    var parts := Split(p);
    if pre <= parts then LeafAt(Node(t), parts[|pre|..]) else None
  }

  ghost predicate Flattens(pre: seq<string>, t: Tree, flat: map<string, Value>) {
    forall p: string :: LeafBelow(pre, t, p) == if p in flat then Some(flat[p]) else None
  }

  // The flat map of some of the keys of t.
  ghost predicate FlattensPart(pre: seq<string>, t: Tree, done: set<string>, flat: map<string, Value>) {
    Flattens(pre, map k | k in t && k in done :: t[k], flat)
  }

  // The components that led to a call of spread and the prefix it was given.
  ghost predicate IsPrefix(pre: seq<string>, prefix: string) {
    && prefix == Join(pre)
    && (pre == [] <==> prefix == "")
    && forall i :: 0 <= i < |pre| ==> DotFree(pre[i])
  }

  /** spread, with the keys of every map in any order. */
  method Spread(src: Tree, prefix: string, ghost pre: seq<string>) returns (target: map<string, Value>)
    requires DotFreeKeys(Node(src)) && (pre == [] ==> "" !in src) && IsPrefix(pre, prefix)
    ensures Flattens(pre, src, target)
    decreases Node(src)
  {
    target := map[];
    var todo := src.Keys;
    FlattensNothing(pre, src);
    while todo != {}
      invariant todo <= src.Keys
      invariant FlattensPart(pre, src, src.Keys - todo, target)
      decreases todo
    {
      var k :| k in todo;
      var v := src[k];
      var p := prefix + "." + k;
      if prefix == "" {
        p := k;
      }
      ghost var done, before := src.Keys - todo, target;
      KeyComponents(pre, prefix, k, p);
      if !v.Node? {
        target := target[p := v];
        FlattensLeaf(pre, src, done, before, k, p);
      } else {
        var sub := Spread(v.m, p, pre + [k]);
        target := target + sub;
        FlattensMap(pre, src, done, before, k, sub);
      }
      assert src.Keys - (todo - {k}) == done + {k};
      todo := todo - {k};
    }
    assert (map k | k in src && k in src.Keys - todo :: src[k]) == src;
  }

  lemma KeyComponents(pre: seq<string>, prefix: string, k: string, p: string)
    requires IsPrefix(pre, prefix) && DotFree(k) && (pre == [] ==> k != "")
    requires p == if prefix == "" then k else prefix + "." + k
    ensures IsPrefix(pre + [k], p) && Split(p) == pre + [k]
  {
    assert (pre + [k])[..|pre|] == pre;
    SplitJoin(pre + [k]);
  }

  lemma FlattensNothing(pre: seq<string>, t: Tree)
    ensures FlattensPart(pre, t, t.Keys - t.Keys, map[])
  {
    var none := map k | k in t && k in t.Keys - t.Keys :: t[k];
    forall p: string ensures LeafBelow(pre, none, p) == None {
      assert none == map[];
    }
  }

  // A flat key below pre + [k] is one below pre whose next component is k.
  lemma LeafBelowPart(pre: seq<string>, t: Tree, done: set<string>, k: string, p: string)
    requires k in t && k !in done
    ensures var part := map x | x in t && x in done :: t[x];
            var more := map x | x in t && x in done + {k} :: t[x];
            LeafBelow(pre, more, p) ==
              if pre + [k] <= Split(p) then LeafAt(t[k], Split(p)[|pre| + 1..]) else LeafBelow(pre, part, p)
    ensures pre + [k] <= Split(p) ==> LeafBelow(pre, map x | x in t && x in done :: t[x], p) == None
  {
    var parts := Split(p);
    if pre <= parts {
      var rest := parts[|pre|..];
      if rest != [] {
        assert rest[1..] == parts[|pre| + 1..];
        assert rest[0] == k <==> pre + [k] <= parts by {
          assert parts[..|pre|] == pre;
        }
      }
    } else {
      NotBelow(pre, k, parts);
    }
  }

  lemma NotBelow(pre: seq<string>, k: string, parts: seq<string>)
    ensures pre + [k] <= parts ==> pre <= parts
  {
    if pre + [k] <= parts {
      assert parts[..|pre|] == pre;
    }
  }

  lemma FlattensLeaf(pre: seq<string>, t: Tree, done: set<string>, flat: map<string, Value>, k: string, p: string)
    requires FlattensPart(pre, t, done, flat) && k in t && k !in done && !t[k].Node?
    requires Split(p) == pre + [k]
    ensures FlattensPart(pre, t, done + {k}, flat[p := t[k]])
  {
    hide Split, LeafBelow, LeafAt;
    var part := map x | x in t && x in done :: t[x];
    var more := map x | x in t && x in done + {k} :: t[x];
    forall q: string
      ensures LeafBelow(pre, more, q) == if q in flat[p := t[k]] then Some(flat[p := t[k]][q]) else None
    {
      assert LeafBelow(pre, part, q) == if q in flat then Some(flat[q]) else None;
      LeafBelowPart(pre, t, done, k, q);
      LeafKey(pre, t[k], k, p, q);
    }
  }

  // Below pre + [k], where t holds a leaf, only p leads to it.
  lemma LeafKey(pre: seq<string>, v: Value, k: string, p: string, q: string)
    requires !v.Node? && Split(p) == pre + [k]
    ensures pre + [k] <= Split(q) ==> LeafAt(v, Split(q)[|pre| + 1..]) == if q == p then Some(v) else None
    ensures q == p ==> pre + [k] <= Split(q)
  {
    hide Split;
    if Split(q) == pre + [k] {
      JoinSplit(q);
      JoinSplit(p);
    } else if pre + [k] <= Split(q) {
      BelowLeaf(v, Split(q)[|pre| + 1..]);
    }
  }

  lemma FlattensMap(pre: seq<string>, t: Tree, done: set<string>, flat: map<string, Value>, k: string, sub: map<string, Value>)
    requires FlattensPart(pre, t, done, flat) && k in t && k !in done && t[k].Node?
    requires Flattens(pre + [k], t[k].m, sub)
    ensures FlattensPart(pre, t, done + {k}, flat + sub)
  {
    var more := map x | x in t && x in done + {k} :: t[x];
    forall q: string
      ensures LeafBelow(pre, more, q) == if q in flat + sub then Some((flat + sub)[q]) else None
    {
      LeafBelowPart(pre, t, done, k, q);
      assert LeafBelow(pre + [k], t[k].m, q) == if q in sub then Some(sub[q]) else None;
    }
  }

  // Flattening from the root: p names v exactly when splitting p leads to the leaf v.
  lemma FlatKeys(t: Tree, flat: map<string, Value>, p: string)
    requires Flattens([], t, flat)
    ensures LeafAt(Node(t), Split(p)) == if p in flat then Some(flat[p]) else None
  {
    assert LeafBelow([], t, p) == if p in flat then Some(flat[p]) else None;
    assert Split(p)[0..] == Split(p);
  }

  // Distinct leaves have distinct flat keys, and every leaf has one.
  lemma {:induction false} LeavesHaveKeys(t: Tree, flat: map<string, Value>, path: seq<string>, path': seq<string>)
    requires DotFreeKeys(Node(t)) && Flattens([], t, flat)
    requires LeafAt(Node(t), path).Some? && LeafAt(Node(t), path').Some?
    ensures Join(path) in flat && Some(flat[Join(path)]) == LeafAt(Node(t), path)
    ensures Join(path) == Join(path') ==> path == path'
  {
    PathsAreDotFree(Node(t), path);
    PathsAreDotFree(Node(t), path');
    SplitJoin(path);
    SplitJoin(path');
    FlatKeys(t, flat, Join(path));
  }

  lemma {:induction false} PathsAreDotFree(v: Value, path: seq<string>)
    requires DotFreeKeys(v) && At(v, path).Some?
    ensures forall i :: 0 <= i < |path| ==> DotFree(path[i])
  {
    if path != [] {
      PathsAreDotFree(v.m[path[0]], path[1..]);
      assert path == [path[0]] + path[1..];
    }
  }

  // ---------- lookup and what it writes ----------

  // New nested maps for the components of a path.
  function Chain(path: seq<string>): (r: Tree) {
    if path == [] then map[] else map[path[0] := Node(Chain(path[1..]))]
  }

  datatype Walked = Walked(found: Tree, left: Tree)

  // Walking a path inside a map that the tree holds: the map found, and what is left of the
  // map walked.  A missing key or a non-map on the way is replaced by an empty map.
  function Walk(t: Tree, path: seq<string>): (r: Walked)
    decreases path
  {
    if path == [] then Walked(t, t)
    else if path[0] in t && t[path[0]].Node? then
      var below := Walk(t[path[0]].m, path[1..]);
      Walked(below.found, t[path[0] := Node(below.left)])
    else Walked(map[], t[path[0] := Node(Chain(path[1..]))])
  }

  // The walk starts on a copy of the top level: what it writes there is lost.
  function Search(t: Tree, path: seq<string>): (r: Walked) {
    if path == [] then Walked(t, t)
    else if path[0] in t && t[path[0]].Node? then
      var below := Walk(t[path[0]].m, path[1..]);
      Walked(below.found, t[path[0] := Node(below.left)])
    else Walked(map[], t)
  }

  // Writing a value at a path whose parent maps are there.
  function SetAt(v: Value, path: seq<string>, x: Value): (r: Value) {
    if path == [] then x
    else if v.Node? && path[0] in v.m then Node(v.m[path[0] := SetAt(v.m[path[0]], path[1..], x)])
    else if v.Node? then Node(v.m[path[0] := x])
    else v
  }

  lemma {:induction false} AtSet(v: Value, path: seq<string>, k: string, x: Value)
    requires At(v, path).Some? && At(v, path).value.Node?
    ensures At(SetAt(v, path + [k], x), path + [k]) == Some(x)
    ensures SetAt(v, path + [k], x) == SetAt(v, path, Node(At(v, path).value.m[k := x]))
    decreases path
  {
    if path == [] {
      assert path + [k] == [k] && [k][1..] == [];
    } else {
      AtSet(v.m[path[0]], path[1..], k, x);
      assert (path + [k])[1..] == path[1..] + [k];
    }
  }

  lemma {:induction false} SetTwice(v: Value, path: seq<string>, x: Value, y: Value)
    requires At(v, path).Some?
    ensures At(SetAt(v, path, x), path) == Some(x)
    ensures SetAt(SetAt(v, path, x), path, y) == SetAt(v, path, y)
    ensures SetAt(v, path, At(v, path).value) == v
    decreases path
  {
    if path != [] {
      SetTwice(v.m[path[0]], path[1..], x, y);
    }
  }

  lemma {:induction false} AtStep(v: Value, path: seq<string>, k: string)
    requires At(v, path).Some?
    ensures var x := At(v, path).value;
            At(v, path + [k]) == if x.Node? && k in x.m then Some(x.m[k]) else None
    decreases path
  {
    if path == [] {
      assert path + [k] == [k] && [k][1..] == [];
    } else {
      AtStep(v.m[path[0]], path[1..], k);
      assert (path + [k])[1..] == path[1..] + [k];
    }
  }

  lemma ChainIsWalk(path: seq<string>)
    ensures Walk(map[], path).left == Chain(path) && Walk(map[], path).found == map[]
  {
  }

  // What the loop of deepSearch knows after i components, while its current map mp belongs
  // to the tree.
  ghost predicate Attached(t: Tree, paths: seq<string>, i: nat, left: Tree, mp: Tree) {
    && 1 <= i <= |paths|
    && At(Node(left), paths[..i]) == Some(Node(mp))
    && Search(t, paths).found == Walk(mp, paths[i..]).found
    && Node(Search(t, paths).left) == SetAt(Node(left), paths[..i], Node(Walk(mp, paths[i..]).left))
  }

  lemma FirstStep(t: Tree, paths: seq<string>)
    requires paths != [] && paths[0] in t && t[paths[0]].Node?
    ensures Attached(t, paths, 1, t, t[paths[0]].m)
  {
    assert paths[..1] == [paths[0]] && [paths[0]][1..] == [];
  }

  lemma DownStep(t: Tree, paths: seq<string>, i: nat, left: Tree, mp: Tree)
    requires Attached(t, paths, i, left, mp) && i < |paths|
    requires paths[i] in mp && mp[paths[i]].Node?
    ensures Attached(t, paths, i + 1, left, mp[paths[i]].m)
  {
    hide SetAt, At, Search;
    var k := paths[i];
    assert paths[..i + 1] == paths[..i] + [k];
    assert paths[i..][0] == k && paths[i..][1..] == paths[i + 1..];
    AtStep(Node(left), paths[..i], k);
    AtSet(Node(left), paths[..i], k, Node(Walk(mp[k].m, paths[i + 1..]).left));
  }

  lemma MissStep(t: Tree, paths: seq<string>, i: nat, left: Tree, mp: Tree)
    requires Attached(t, paths, i, left, mp) && i < |paths|
    requires !(paths[i] in mp && mp[paths[i]].Node?)
    ensures var w := SetAt(Node(left), paths[..i + 1], Node(map[]));
            w.Node? && Attached(t, paths, i + 1, w.m, map[])
  {
    hide SetAt, At, Search, Chain;
    var k := paths[i];
    var rest := paths[i + 1..];
    assert paths[..i + 1] == paths[..i] + [k];
    assert paths[i..][0] == k && paths[i..][1..] == rest;
    ChainIsWalk(rest);
    SetIsNode(Node(left), paths[..i], k, Node(map[]));
    AtSet(Node(left), paths[..i], k, Node(map[]));
    AtSet(Node(left), paths[..i], k, Node(Chain(rest)));
    SetTwice(SetAt(Node(left), paths[..i + 1], Node(map[])), paths[..i + 1], Node(map[]), Node(Chain(rest)));
    SetOver(Node(left), paths[..i], k, Node(map[]), Node(Chain(rest)));
  }

  lemma SetOver(v: Value, path: seq<string>, k: string, x: Value, y: Value)
    requires At(v, path).Some? && At(v, path).value.Node?
    ensures SetAt(SetAt(v, path + [k], x), path + [k], y) == SetAt(v, path + [k], y)
  {
    hide SetAt, At;
    var m := At(v, path).value.m;
    AtSet(v, path, k, x);
    AtSet(v, path, k, y);
    SetTwice(v, path, Node(m[k := x]), Node(m[k := y]));
    AtSet(SetAt(v, path + [k], x), path, k, y);
    assert m[k := x][k := y] == m[k := y];
  }

  lemma SetIsNode(v: Value, path: seq<string>, k: string, x: Value)
    requires v.Node?
    ensures SetAt(v, path + [k], x).Node?
  {
  }

  /** deepSearch: mp is its current map; once it has left the copy of the top level, mp is a
      map that the tree holds and what is written to it is written to the tree. */
  method DeepSearch(m: Tree, paths: seq<string>) returns (mp: Tree, left: Tree)
    ensures Walked(mp, left) == Search(m, paths)
  {
    mp, left := m, m;
    var detached := false;
    var i := 0;
    while i < |paths|
      invariant i <= |paths|
      invariant i == 0 ==> mp == m && left == m && !detached
      invariant detached ==> mp == map[] && left == m && Search(m, paths) == Walked(map[], m)
      invariant i > 0 && !detached ==> Attached(m, paths, i, left, mp)
    {
      var k := paths[i];
      if k !in mp || !mp[k].Node? {
        if i == 0 {
          detached := true;
        } else if !detached {
          MissStep(m, paths, i, left, mp);
          left := SetAt(Node(left), paths[..i + 1], Node(map[])).m;
        }
        mp := map[];
      } else {
        if i == 0 {
          FirstStep(m, paths);
        } else {
          DownStep(m, paths, i, left, mp);
        }
        mp := mp[k].m;
      }
      i := i + 1;
    }
    if paths != [] && !detached {
      assert paths[i..] == [];
      SetTwice(Node(left), paths[..i], Node(mp), Node(mp));
    }
  }

  // The value that find reads below the map it found; nil stands for a missing one.
  function ValueAt(t: Tree, path: seq<string>): (r: Value) {
    match At(Node(t), path)
    case Some(v) => v
    case None => Nil
  }

  lemma {:induction false} WalkFinds(t: Tree, path: seq<string>, last: string)
    ensures var f := Walk(t, path).found;
            (if last in f then f[last] else Nil) == ValueAt(t, path + [last])
    decreases path
  {
    if path == [] {
      assert path + [last] == [last] && [last][1..] == [];
      assert At(Node(t), [last]) == if last in t then Some(t[last]) else None;
    } else {
      assert (path + [last])[1..] == path[1..] + [last];
      if path[0] in t {
        if t[path[0]].Node? {
          WalkFinds(t[path[0]].m, path[1..], last);
        } else {
          BelowLeaf(t[path[0]], path[1..] + [last]);
        }
      }
    }
  }

  // deepSearch on all but the last component, then indexing, reads the value at the path.
  lemma SearchFinds(t: Tree, path: seq<string>)
    requires path != []
    ensures var f, last := Search(t, path[..|path| - 1]).found, path[|path| - 1];
            (if last in f then f[last] else Nil) == ValueAt(t, path)
  {
    var n := |path| - 1;
    assert path == path[..n] + [path[n]];
    WalkFinds(t, path[..n], path[n]);
  }

  // Flat key and walk agree: what the flat map holds for p is what deepSearch and the final
  // index find, and the flat map holds every leaf.
  lemma FlatAgreesWithSearch(t: Tree, flat: map<string, Value>, p: string)
    requires Flattens([], t, flat)
    ensures var parts := Split(p);
            var found, last := Search(t, parts[..|parts| - 1]).found, parts[|parts| - 1];
            p in flat <==> last in found && !found[last].Node? && LeafAt(Node(t), parts) == Some(found[last])
    ensures p in flat ==> flat[p] == ValueAt(t, Split(p))
  {
    FlatKeys(t, flat, p);
    SearchFinds(t, Split(p));
    FoundIsThere(t, Split(p));
  }

  // The map found holds the last component exactly when the tree holds the path.
  lemma FoundIsThere(t: Tree, path: seq<string>)
    requires path != []
    ensures path[|path| - 1] in Search(t, path[..|path| - 1]).found <==> At(Node(t), path).Some?
  {
    var n := |path| - 1;
    assert path == path[..n] + [path[n]];
    WalkFindsKey(t, path[..n], path[n]);
  }

  lemma {:induction false} WalkFindsKey(t: Tree, path: seq<string>, last: string)
    ensures last in Walk(t, path).found <==> At(Node(t), path + [last]).Some?
    decreases path
  {
    if path == [] {
      assert path + [last] == [last] && [last][1..] == [];
      assert At(Node(t), [last]) == if last in t then Some(t[last]) else None;
    } else {
      assert (path + [last])[1..] == path[1..] + [last];
      if path[0] in t {
        if t[path[0]].Node? {
          WalkFindsKey(t[path[0]].m, path[1..], last);
        } else {
          BelowLeaf(t[path[0]], path[1..] + [last]);
        }
      }
    }
  }

  // Which leaves survive a walk inside the tree: all but those on the path walked.
  lemma {:induction false} WalkLeaves(t: Tree, path: seq<string>, q: seq<string>)
    ensures LeafAt(Node(Walk(t, path).left), q) ==
            if q <= path && q != [] then None else LeafAt(Node(t), q)
    decreases path
  {
    if path != [] && q != [] {
      var k := path[0];
      assert q <= path <==> q[0] == k && q[1..] <= path[1..];
      if q[0] == k {
        if k in t && t[k].Node? {
          WalkLeaves(t[k].m, path[1..], q[1..]);
          if q[1..] == [] {
            assert LeafAt(t[k], q[1..]) == None;
          }
        } else {
          ChainHasNoLeaf(path[1..], q[1..]);
          if k in t && q[1..] != [] {
            BelowLeaf(t[k], q[1..]);
          }
        }
      }
    }
  }

  lemma {:induction false} ChainHasNoLeaf(path: seq<string>, q: seq<string>)
    ensures LeafAt(Node(Chain(path)), q) == None
  {
    if path != [] && q != [] && q[0] == path[0] {
      ChainHasNoLeaf(path[1..], q[1..]);
    }
  }

  // A lookup destroys exactly the leaves below the top level that lie on the way to its
  // last component, and creates none.
  lemma SearchLeaves(t: Tree, path: seq<string>, q: seq<string>)
    ensures LeafAt(Node(Search(t, path).left), q) ==
            if q <= path && |q| >= 2 then None else LeafAt(Node(t), q)
  {
    if path != [] && path[0] in t && t[path[0]].Node? {
      if q != [] && q[0] == path[0] {
        WalkLeaves(t[path[0]].m, path[1..], q[1..]);
        assert q <= path <==> q[1..] <= path[1..];
      }
    } else if q <= path && |q| >= 2 {
      assert q[0] == path[0];
      if path[0] in t {
        BelowLeaf(t[path[0]], q[1..]);
      }
    }
  }

  lemma {:induction false} WalkUnchanged(t: Tree, path: seq<string>)
    ensures Walk(t, path).left == t <==> At(Node(t), path).Some? && At(Node(t), path).value.Node?
    decreases path
  {
    if path != [] {
      var k := path[0];
      if k in t && t[k].Node? {
        WalkUnchanged(t[k].m, path[1..]);
        assert t[k := t[k]] == t;
        assert Walk(t, path).left[k] == Node(Walk(t[k].m, path[1..]).left);
      } else {
        assert Walk(t, path).left[k].Node?;
        if k in t && path[1..] != [] {
          BelowLeaf(t[k], path[1..]);
        }
      }
    }
  }

  // A lookup leaves the tree alone exactly when the first component does not lead into a
  // map, or all of them do.
  lemma SearchUnchanged(t: Tree, path: seq<string>)
    ensures Search(t, path).left == t <==>
            || path == []
            || !(path[0] in t && t[path[0]].Node?)
            || (At(Node(t), path).Some? && At(Node(t), path).value.Node?)
  {
    if path != [] && path[0] in t && t[path[0]].Node? {
      WalkUnchanged(t, path);
    }
  }

  lemma {:induction false} WalkDotFree(t: Tree, path: seq<string>)
    requires DotFreeKeys(Node(t)) && forall i :: 0 <= i < |path| ==> DotFree(path[i])
    ensures DotFreeKeys(Node(Walk(t, path).left)) && DotFreeKeys(Node(Chain(path)))
    decreases path
  {
    if path != [] {
      WalkDotFree(map[], path[1..]);
      if path[0] in t && t[path[0]].Node? {
        assert DotFreeKeys(t[path[0]]);
        WalkDotFree(t[path[0]].m, path[1..]);
      }
    }
  }

  lemma SearchWellFormed(t: Tree, path: seq<string>)
    requires WellFormed(t) && forall i :: 0 <= i < |path| ==> DotFree(path[i])
    ensures WellFormed(Search(t, path).left)
  {
    WalkDotFree(t, path);
  }

  predicate IsMap(v: Option<Value>) { v.Some? && v.value.Node? }

  // After a walk there is a map at every prefix of the path walked, and maps stay maps.
  lemma {:induction false} WalkMakesMap(t: Tree, path: seq<string>, q: seq<string>)
    requires q <= path || IsMap(At(Node(t), q))
    ensures IsMap(At(Node(Walk(t, path).left), q))
    decreases path
  {
    if path != [] && q != [] {
      var k := path[0];
      if q[0] == k {
        assert q <= path ==> q[1..] <= path[1..];
        if k in t && t[k].Node? {
          WalkMakesMap(t[k].m, path[1..], q[1..]);
        } else {
          if k in t && q[1..] != [] {
            BelowLeaf(t[k], q[1..]);
          }
          ChainIsWalk(path[1..]);
          WalkMakesMap(map[], path[1..], q[1..]);
        }
      }
    }
  }

  // A lookup that enters the tree makes a map of everything on its way.
  lemma SearchMakesMap(t: Tree, path: seq<string>, q: seq<string>)
    requires q <= path && |q| >= 2 && IsMap(At(Node(t), q[..1]))
    ensures IsMap(At(Node(Search(t, path).left), q))
  {
    assert q[0] == path[0] && q[1..] <= path[1..];
    assert q[..1] == [q[0]] && q[..1][1..] == [];
    assert At(Node(t), q[..1]) == if q[0] in t then Some(t[q[0]]) else None;
    WalkMakesMap(t[path[0]].m, path[1..], q[1..]);
  }

  // A leaf below the top level is below a map.
  lemma LeafIsBelowMap(t: Tree, q: seq<string>)
    requires |q| >= 2 && LeafAt(Node(t), q).Some?
    ensures IsMap(At(Node(t), q[..1]))
  {
    BelowLeaf(t[q[0]], q[1..]);
    assert q[..1][1..] == [];
  }

  // After a walk there is a map exactly where there was one and on the path walked.
  lemma {:induction false} WalkMaps(t: Tree, path: seq<string>, q: seq<string>)
    ensures IsMap(At(Node(Walk(t, path).left), q)) <==> IsMap(At(Node(t), q)) || q <= path
    decreases path
  {
    if IsMap(At(Node(t), q)) || q <= path {
      WalkMakesMap(t, path, q);
    } else if path != [] && q[0] == path[0] {
      assert !(q[1..] <= path[1..]);
      if path[0] in t && t[path[0]].Node? {
        WalkMaps(t[path[0]].m, path[1..], q[1..]);
      } else {
        ChainIsWalk(path[1..]);
        NothingBelow(q[1..]);
        WalkMaps(map[], path[1..], q[1..]);
      }
    }
  }

  lemma NothingBelow(q: seq<string>)
    ensures q != [] ==> At(Node(map[]), q) == None
  {
  }

  // A lookup makes maps of the path it walks, below a map of the top level, and of nothing
  // else.
  lemma SearchMaps(t: Tree, path: seq<string>, q: seq<string>)
    ensures IsMap(At(Node(Search(t, path).left), q)) <==>
              IsMap(At(Node(t), q)) || (|q| >= 2 && q <= path && IsMap(At(Node(t), q[..1])))
  {
    if |q| >= 2 && q <= path {
      assert q[0] == path[0] && q[..1] == [q[0]] && q[..1][1..] == [];
      assert At(Node(t), q[..1]) == if q[0] in t then Some(t[q[0]]) else None;
    }
    if path != [] && path[0] in t && t[path[0]].Node? && q != [] && q[0] == path[0] {
      WalkMaps(t[path[0]].m, path[1..], q[1..]);
      assert q <= path <==> q[1..] <= path[1..];
      if q[1..] == [] {
        assert At(Node(t), q) == Some(t[path[0]]);
      }
    }
  }

  lemma SearchKeepsMaps(t: Tree, path: seq<string>, q: seq<string>)
    requires IsMap(At(Node(t), q))
    ensures IsMap(At(Node(Search(t, path).left), q))
  {
    if path != [] && path[0] in t && t[path[0]].Node? && q != [] && q[0] == path[0] {
      WalkMakesMap(t[path[0]].m, path[1..], q[1..]);
    }
  }
}
