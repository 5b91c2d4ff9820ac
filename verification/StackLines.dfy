// De-duplication of stack lines over a chain of errors: removeExtraStackLines in
// errors/errors.go.
module StackLines {
  import opened Wrappers

  datatype Line = Line(funcName: string, lineNo: string)

  type Lines = Option<seq<Line>>

  // One error of the chain; its list of lines may be nil.
  class StackInfo {
    const index: int
    var lines: Lines

    constructor (index: int, lines: Lines)
      ensures this.index == index && this.lines == lines
    {
      this.index, this.lines := index, lines;
    }
  }

  function Of(l: Lines): (r: seq<Line>) {
    match l
    case None => []
    case Some(ls) => ls
  }

  // ---------- what is kept ----------

  function Keys(ls: seq<Line>): (r: set<string>) {
    if ls == [] then {} else Keys(ls[..|ls| - 1]) + {ls[|ls| - 1].lineNo}
  }

  lemma {:induction false} KeysMembers(ls: seq<Line>, key: string)
    ensures key in Keys(ls) <==> exists n: nat :: n < |ls| && ls[n].lineNo == key
  {
    if ls != [] {
      var l := |ls| - 1;
      KeysMembers(ls[..l], key);
      if n: nat :| n < l && ls[n].lineNo == key {
        assert ls[..l][n].lineNo == key;
      }
    }
  }

  // The keys of the frames from i on.
  function KeysFrom(all: seq<Lines>, i: nat): (r: set<string>)
    requires i <= |all|
    decreases |all| - i
  {
    if i == |all| then {} else Keys(Of(all[i])) + KeysFrom(all, i + 1)
  }

  // The lines whose keys are not in `seen` and occur for the first time in the list.
  function Firsts(ls: seq<Line>, seen: set<string>): (r: seq<Line>) {
    if ls == [] then []
    else
      var n := |ls| - 1;
      var kept := Firsts(ls[..n], seen);
      if ls[n].lineNo in seen + Keys(ls[..n]) then kept else kept + [ls[n]]
  }

  // What frame i keeps.
  function Kept(all: seq<Lines>, i: nat): (r: Lines)
    requires i < |all|
  {
    match all[i]
    case None => None
    case Some(ls) => Some(Firsts(ls, KeysFrom(all, i + 1)))
  }

  ghost function LinesOf(infos: seq<StackInfo>): (all: seq<Lines>)
    reads infos
    ensures |all| == |infos|
  {
    seq(|infos|, i requires 0 <= i < |infos| reads infos => infos[i].lines)
  }

  /** removeExtraStackLines. */
  method RemoveExtra(infos: seq<StackInfo>)
    requires forall i, j :: 0 <= i < j < |infos| ==> infos[i] != infos[j]
    modifies infos
    ensures forall i :: 0 <= i < |infos| ==> infos[i].lines == Kept(old(LinesOf(infos)), i)
    ensures forall i :: 0 <= i < |infos| ==> Keeps(old(LinesOf(infos)), i, infos[i].lines)
  {
    hide KeysFrom, Kept, Firsts, Keys, Keeps;
    ghost var all := LinesOf(infos);
    NoFrames(all);
    var mp: set<string> := {};
    var i := |infos| - 1;
    while i >= 0
      invariant -1 <= i < |infos|
      invariant mp == KeysFrom(all, i + 1)
      invariant forall j :: 0 <= j <= i ==> infos[j].lines == all[j]
      invariant forall j :: i < j < |infos| ==> infos[j].lines == Kept(all, j)
    {
      var info := infos[i];
      OneFrame(all, i);
      if info.lines.Some? {
        var kept;
        kept, mp := Scan(info.lines.value, mp);
        info.lines := Some(kept);
      }
      i := i - 1;
    }
    forall j | 0 <= j < |infos| ensures Keeps(all, j, infos[j].lines) {
      KeptStand(all, j);
    }
  }

  lemma NoFrames(all: seq<Lines>)
    ensures KeysFrom(all, |all|) == {}
  {
  }

  lemma OneFrame(all: seq<Lines>, i: nat)
    requires i < |all|
    ensures all[i].Some? ==> Kept(all, i) == Some(Firsts(all[i].value, KeysFrom(all, i + 1)))
    ensures all[i].Some? ==> KeysFrom(all, i) == KeysFrom(all, i + 1) + Keys(all[i].value)
    ensures all[i].None? ==> Kept(all, i) == None && KeysFrom(all, i) == KeysFrom(all, i + 1)
  {
  }

  // One frame: a line whose key was seen is removed, any other key is seen from now on.
  method Scan(lines: seq<Line>, seen: set<string>) returns (kept: seq<Line>, mp: set<string>)
    ensures kept == Firsts(lines, seen)
    ensures mp == seen + Keys(lines)
  {
    mp, kept := seen, [];
    for n := 0 to |lines|
      invariant mp == seen + Keys(lines[..n])
      invariant kept == Firsts(lines[..n], seen)
    {
      var line := lines[n];
      assert lines[..n + 1][..n] == lines[..n];
      if line.lineNo !in mp {
        mp := mp + {line.lineNo};
        kept := kept + [line];
      }
    }
    assert lines[..|lines|] == lines;
  }

  // ---------- what the kept lines are ----------

  // Line n of frame i is the one that stands for its key: no later frame has the key and
  // no earlier line of the frame.
  ghost predicate Stands(all: seq<Lines>, i: nat, n: nat) {
    && i < |all| && n < |Of(all[i])|
    && (forall m: nat :: m < n ==> Of(all[i])[m].lineNo != Of(all[i])[n].lineNo)
    && (forall j: nat, m: nat :: i < j < |all| && m < |Of(all[j])| ==> Of(all[j])[m].lineNo != Of(all[i])[n].lineNo)
  }

  // A nil list stays nil; of any other the lines that stand for their keys are kept, in
  // order.
  ghost predicate Keeps(all: seq<Lines>, i: nat, kept: Lines)
    requires i < |all|
  {
    match all[i]
    case None => kept == None
    case Some(ls) => kept.Some? && exists ps :: Selects(all, i, ps, kept.value)
  }

  ghost predicate Selects(all: seq<Lines>, i: nat, ps: seq<nat>, kept: seq<Line>)
    requires i < |all|
  {
    && |ps| == |kept|
    && (forall k :: 0 <= k < |ps| ==> ps[k] < |Of(all[i])| && kept[k] == Of(all[i])[ps[k]])
    && (forall j, k :: 0 <= j < k < |ps| ==> ps[j] < ps[k])
    && (forall n: nat :: n in ps <==> Stands(all, i, n))
  }

  lemma KeptStand(all: seq<Lines>, i: nat)
    requires i < |all|
    ensures Keeps(all, i, Kept(all, i))
  {
    hide KeysFrom, Stands, Positions, Firsts;
    if all[i].Some? {
      var ps := Positions(Of(all[i]), KeysFrom(all, i + 1));
      FirstsAreAt(Of(all[i]), KeysFrom(all, i + 1));
      forall n: nat ensures n in ps <==> Stands(all, i, n) {
        SurvivorsStand(all, i, n);
      }
      assert Selects(all, i, ps, Kept(all, i).value);
    }
  }

  // The keys from a frame on are the keys of its lines and those of later frames.
  lemma {:induction false} KeysFromMembers(all: seq<Lines>, i: nat, key: string)
    requires i <= |all|
    ensures key in KeysFrom(all, i) <==>
              exists j: nat, m: nat :: i <= j < |all| && m < |Of(all[j])| && Of(all[j])[m].lineNo == key
    decreases |all| - i
  {
    hide Keys;
    if i < |all| {
      KeysFromMembers(all, i + 1, key);
      KeysMembers(Of(all[i]), key);
    }
  }

  // The positions of the lines kept of a list, in increasing order.
  ghost function Positions(ls: seq<Line>, seen: set<string>): (ps: seq<nat>)
    ensures forall k :: 0 <= k < |ps| ==> ps[k] < |ls|
  {
    if ls == [] then []
    else
      var n := |ls| - 1;
      var ps := Positions(ls[..n], seen);
      if ls[n].lineNo in seen + Keys(ls[..n]) then ps else ps + [n]
  }

  // Relative order is preserved: the kept lines are the lines at increasing positions.
  lemma {:induction false} FirstsAreAt(ls: seq<Line>, seen: set<string>)
    ensures var ps, kept := Positions(ls, seen), Firsts(ls, seen);
            && |ps| == |kept|
            && (forall k :: 0 <= k < |ps| ==> kept[k] == ls[ps[k]])
            && (forall j, k :: 0 <= j < k < |ps| ==> ps[j] < ps[k])
  {
    hide Keys;
    if ls != [] {
      FirstsAreAt(ls[..|ls| - 1], seen);
    }
  }

  // And those positions are exactly the lines whose key is new.
  lemma {:induction false} PositionsExact(ls: seq<Line>, seen: set<string>, n: nat)
    ensures n in Positions(ls, seen) <==>
              && n < |ls|
              && ls[n].lineNo !in seen
              && forall m :: 0 <= m < n ==> ls[m].lineNo != ls[n].lineNo
  {
    if ls != [] {
      var l := |ls| - 1;
      PositionsExact(ls[..l], seen, n);
      if n == l {
        KeysMembers(ls[..l], ls[l].lineNo);
        assert forall m: nat :: m < l ==> ls[..l][m] == ls[m];
      }
    }
  }

  lemma SurvivorsStand(all: seq<Lines>, i: nat, n: nat)
    requires i < |all|
    ensures n in Positions(Of(all[i]), KeysFrom(all, i + 1)) <==> Stands(all, i, n)
  {
    hide KeysFrom, Positions;
    PositionsExact(Of(all[i]), KeysFrom(all, i + 1), n);
    if n < |Of(all[i])| {
      KeysFromMembers(all, i + 1, Of(all[i])[n].lineNo);
    }
  }

  lemma KeptIsFirsts(all: seq<Lines>, i: nat)
    requires i < |all|
    ensures Of(Kept(all, i)) == Firsts(Of(all[i]), KeysFrom(all, i + 1))
  {
  }

  lemma {:induction false} FirstsKeys(ls: seq<Line>, seen: set<string>)
    ensures Keys(Firsts(ls, seen)) == Keys(ls) - seen
  {
    if ls != [] {
      var n := |ls| - 1;
      var kept := Firsts(ls[..n], seen);
      FirstsKeys(ls[..n], seen);
      assert (kept + [ls[n]])[..|kept|] == kept;
    }
  }

  lemma {:induction false} FirstsDistinct(ls: seq<Line>, seen: set<string>, j: nat, k: nat)
    requires j < k < |Firsts(ls, seen)|
    ensures Firsts(ls, seen)[j].lineNo != Firsts(ls, seen)[k].lineNo
  {
    var n := |ls| - 1;
    var kept := Firsts(ls[..n], seen);
    if k < |kept| {
      FirstsDistinct(ls[..n], seen, j, k);
    } else {
      FirstsKeys(ls[..n], seen);
      KeysMembers(kept, kept[j].lineNo);
    }
  }

  // All frames after the de-duplication.
  function Deduplicated(all: seq<Lines>): (r: seq<Lines>)
    ensures |r| == |all|
  {
    seq(|all|, i requires 0 <= i < |all| => Kept(all, i))
  }

  // The set of keys is unchanged, from every frame on.
  lemma {:induction false} KeysUnchanged(all: seq<Lines>, i: nat)
    requires i <= |all|
    ensures KeysFrom(Deduplicated(all), i) == KeysFrom(all, i)
    decreases |all| - i
  {
    hide Keys, Firsts;
    if i < |all| {
      KeysUnchanged(all, i + 1);
      KeptKeys(all, i);
      assert Deduplicated(all)[i] == Kept(all, i);
    }
  }

  lemma KeptKeys(all: seq<Lines>, i: nat)
    requires i < |all|
    ensures Keys(Of(Kept(all, i))) == Keys(Of(all[i])) - KeysFrom(all, i + 1)
  {
    KeptIsFirsts(all, i);
    FirstsKeys(Of(all[i]), KeysFrom(all, i + 1));
  }

  lemma KeptKey(all: seq<Lines>, i: nat, n: nat)
    requires i < |all| && n < |Of(Kept(all, i))|
    ensures var key := Of(Kept(all, i))[n].lineNo; key in Keys(Of(all[i])) && key !in KeysFrom(all, i + 1)
  {
    hide KeysFrom, Keys, Firsts, Kept;
    KeptKeys(all, i);
    KeysMembers(Of(Kept(all, i)), Of(Kept(all, i))[n].lineNo);
  }

  // Every key occurs at most once over all frames: neither twice in one frame nor in two.
  lemma KeysAreUnique(all: seq<Lines>, i: nat, n: nat, j: nat, m: nat)
    requires i <= j < |all|
    requires n < |Of(Deduplicated(all)[i])| && m < |Of(Deduplicated(all)[j])|
    requires Of(Deduplicated(all)[i])[n].lineNo == Of(Deduplicated(all)[j])[m].lineNo
    ensures i == j && n == m
  {
    hide KeysFrom, Keys, Firsts, Kept;
    assert Deduplicated(all)[i] == Kept(all, i) && Deduplicated(all)[j] == Kept(all, j);
    KeptKey(all, i, n);
    KeptKey(all, j, m);
    if i < j {
      InLaterFrame(all, i + 1, j, Of(Kept(all, j))[m].lineNo);
    } else {
      KeptIsFirsts(all, i);
      if n < m {
        FirstsDistinct(Of(all[i]), KeysFrom(all, i + 1), n, m);
      } else if m < n {
        FirstsDistinct(Of(all[i]), KeysFrom(all, i + 1), m, n);
      }
    }
  }

  lemma {:induction false} InLaterFrame(all: seq<Lines>, from: nat, j: nat, key: string)
    requires from <= j < |all| && key in Keys(Of(all[j]))
    ensures key in KeysFrom(all, from)
    decreases j - from
  {
    if from < j {
      InLaterFrame(all, from + 1, j, key);
    }
  }

  // Every key of the chain survives exactly where it stands: in the last frame that has it.
  lemma KeySurvives(all: seq<Lines>, key: string) returns (i: nat, n: nat)
    requires key in KeysFrom(all, 0)
    ensures Stands(all, i, n) && Of(all[i])[n].lineNo == key
    ensures Of(all[i])[n] in Of(Deduplicated(all)[i])
  {
    i := LastFrameWith(all, 0, key);
    n := FirstLineWith(Of(all[i]), key);
    KeysFromMembers(all, i + 1, key);
    assert Stands(all, i, n);
    KeptIsFirsts(all, i);
    SurvivorsStand(all, i, n);
    FirstsAreAt(Of(all[i]), KeysFrom(all, i + 1));
    var ps := Positions(Of(all[i]), KeysFrom(all, i + 1));
    var k :| 0 <= k < |ps| && ps[k] == n;
    assert Firsts(Of(all[i]), KeysFrom(all, i + 1))[k] == Of(all[i])[n];
  }

  lemma {:induction false} LastFrameWith(all: seq<Lines>, from: nat, key: string) returns (i: nat)
    requires from <= |all| && key in KeysFrom(all, from)
    ensures i < |all| && key in Keys(Of(all[i])) && key !in KeysFrom(all, i + 1)
    decreases |all| - from
  {
    if key in KeysFrom(all, from + 1) {
      i := LastFrameWith(all, from + 1, key);
    } else {
      i := from;
    }
  }

  lemma {:induction false} FirstLineWith(ls: seq<Line>, key: string) returns (n: nat)
    requires key in Keys(ls)
    ensures n < |ls| && ls[n].lineNo == key && forall m :: 0 <= m < n ==> ls[m].lineNo != key
  {
    var l := |ls| - 1;
    if key in Keys(ls[..l]) {
      n := FirstLineWith(ls[..l], key);
    } else {
      n := l;
      KeysMembers(ls[..l], key);
      assert forall m: nat :: m < l ==> ls[..l][m] == ls[m];
    }
  }
}
