// From a service list to published addresses: transport/grpc/resolver/resolver.go,
// transport/grpc/resolver/subset.go and the endpoint choice of pkg/endpoint/endpoint.go.
module Resolver {
  import opened Arithmetic
  import opened Wrappers
  import SmoothWrr

  datatype Url = Url(scheme: string, host: string)

  datatype Service = Service(name: string, endpoints: seq<string>)

  datatype Address = Address(serverName: string, addr: string)

  // url.Parse, and the scheme the connection wants.
  datatype Parser = Parser(parse: string -> Option<Url>, scheme: string)

  // The endpoint of a list that decides: the first that does not parse or has the scheme.
  ghost predicate Decides(p: Parser, endpoints: seq<string>, i: nat) {
    && i < |endpoints|
    && (p.parse(endpoints[i]) == None || p.parse(endpoints[i]).value.scheme == p.scheme)
    && forall j :: 0 <= j < i ==> p.parse(endpoints[j]).Some? && p.parse(endpoints[j]).value.scheme != p.scheme
  }

  function ValidAddr(p: Parser, endpoints: seq<string>): (r: Option<string>) {
    if endpoints == [] then None
    else match p.parse(endpoints[0])
      case None => None
      case Some(u) => if u.scheme == p.scheme then Some(u.host) else ValidAddr(p, endpoints[1..])
  }

  // An address comes from the first endpoint of the wanted scheme, provided every endpoint
  // before it parses.
  lemma {:induction false} ValidAddrIff(p: Parser, endpoints: seq<string>, host: string)
    ensures ValidAddr(p, endpoints) == Some(host) <==>
            exists i: nat :: Decides(p, endpoints, i) && p.parse(endpoints[i]) == Some(Url(p.scheme, host))
  {
    if endpoints != [] {
      var rest := endpoints[1..];
      ValidAddrIff(p, rest, host);
      var first := p.parse(endpoints[0]);
      if first.None? || first.value.scheme == p.scheme {
        assert Decides(p, endpoints, 0);
      } else {
        if i: nat :| Decides(p, rest, i) && p.parse(rest[i]) == Some(Url(p.scheme, host)) {
          assert Decides(p, endpoints, i + 1);
        }
        if i: nat :| Decides(p, endpoints, i) && p.parse(endpoints[i]) == Some(Url(p.scheme, host)) {
          assert Decides(p, rest, i - 1);
        }
      }
    }
  }

  method ParseValidAddr(p: Parser, endpoints: seq<string>) returns (r: Option<string>)
    ensures r == ValidAddr(p, endpoints)
    ensures forall host :: r == Some(host) <==>
              exists i: nat :: Decides(p, endpoints, i) && p.parse(endpoints[i]) == Some(Url(p.scheme, host))
  {
    forall host
      ensures ValidAddr(p, endpoints) == Some(host) <==>
                exists i: nat :: Decides(p, endpoints, i) && p.parse(endpoints[i]) == Some(Url(p.scheme, host))
    {
      ValidAddrIff(p, endpoints, host);
    }
    var i := 0;
    assert endpoints[0..] == endpoints;
    while i < |endpoints|
      invariant i <= |endpoints|
      invariant ValidAddr(p, endpoints) == ValidAddr(p, endpoints[i..])
    {
      var u := p.parse(endpoints[i]);
      if u == None {
        return None;
      }
      if u.value.scheme == p.scheme {
        return Some(u.value.host);
      }
      i := i + 1;
    }
    r := None;
  }

  // ---------- the filtered list ----------

  function AddrOf(p: Parser, s: Service): (r: Option<string>) { ValidAddr(p, s.endpoints) }

  ghost predicate AllValid(p: Parser, chosen: seq<Service>) {
    forall i :: 0 <= i < |chosen| ==> AddrOf(p, chosen[i]).Some?
  }

  ghost predicate AllDistinct(p: Parser, chosen: seq<Service>) {
    forall i, j :: 0 <= i < j < |chosen| ==> AddrOf(p, chosen[i]) != AddrOf(p, chosen[j])
  }

  // Every valid address of svc is the address of a service of chosen.
  ghost predicate Covers(p: Parser, chosen: seq<Service>, svc: seq<Service>) {
    forall s :: s in svc && AddrOf(p, s).Some? ==> exists t :: t in chosen && AddrOf(p, t) == AddrOf(p, s)
  }

  function ValidAddrs(p: Parser, svc: seq<Service>): (addrs: set<string>) {
    set s | s in svc && AddrOf(p, s).Some? :: AddrOf(p, s).value
  }

  // Of every valid address the first service that has it, in the order of the list.
  function Firsts(p: Parser, svc: seq<Service>): (first: seq<Service>) {
    if svc == [] then []
    else
      var n := |svc| - 1;
      Firsts(p, svc[..n]) + (if IsNew(p, svc, n) then [svc[n]] else [])
  }

  predicate IsNew(p: Parser, svc: seq<Service>, n: nat)
    requires n < |svc|
  {
    AddrOf(p, svc[n]).Some? && AddrOf(p, svc[n]).value !in ValidAddrs(p, svc[..n])
  }

  ghost function FirstPositions(p: Parser, svc: seq<Service>): (ps: seq<nat>) {
    if svc == [] then []
    else
      var n := |svc| - 1;
      FirstPositions(p, svc[..n]) + (if IsNew(p, svc, n) then [n] else [])
  }

  // They stand at increasing positions, and a position is theirs exactly when its service
  // has a valid address that no earlier one has.
  lemma {:induction false} FirstsAreAt(p: Parser, svc: seq<Service>)
    ensures var ps, first := FirstPositions(p, svc), Firsts(p, svc);
            && |ps| == |first|
            && (forall k :: 0 <= k < |ps| ==> ps[k] < |svc| && first[k] == svc[ps[k]])
            && (forall j, k :: 0 <= j < k < |ps| ==> ps[j] < ps[k])
  {
    hide IsNew;
    if svc != [] {
      FirstsAreAt(p, svc[..|svc| - 1]);
    }
  }

  lemma {:induction false} FirstsExact(p: Parser, svc: seq<Service>, n: nat)
    ensures n in FirstPositions(p, svc) <==>
              && n < |svc|
              && ValidAddr(p, svc[n].endpoints).Some?
              && forall m :: 0 <= m < n ==> ValidAddr(p, svc[m].endpoints) != ValidAddr(p, svc[n].endpoints)
  {
    hide IsNew, ValidAddr;
    if svc != [] {
      var l := |svc| - 1;
      FirstsExact(p, svc[..l], n);
      NewIff(p, svc, l);
      assert forall m :: 0 <= m < l ==> svc[..l][m] == svc[m];
    }
  }

  lemma NewIff(p: Parser, svc: seq<Service>, n: nat)
    requires n < |svc|
    ensures IsNew(p, svc, n) <==>
              AddrOf(p, svc[n]).Some? && forall m :: 0 <= m < n ==> AddrOf(p, svc[m]) != AddrOf(p, svc[n])
  {
    hide ValidAddr;
    if AddrOf(p, svc[n]).Some? {
      forall m | 0 <= m < n ensures svc[m] in svc[..n] {
        assert svc[..n][m] == svc[m];
      }
      if AddrOf(p, svc[n]).value in ValidAddrs(p, svc[..n]) {
        var s :| s in svc[..n] && AddrOf(p, s) == AddrOf(p, svc[n]);
        var m :| 0 <= m < n && svc[..n][m] == s;
        assert svc[m] == s;
      }
    }
  }

  lemma {:induction false} FirstsAreGood(p: Parser, svc: seq<Service>)
    ensures AllValid(p, Firsts(p, svc)) && AllDistinct(p, Firsts(p, svc)) && Covers(p, Firsts(p, svc), svc)
    ensures forall s :: s in Firsts(p, svc) ==> s in svc
  {
    hide AddrOf, Firsts, AllValid, AllDistinct, Covers, IsNew;
    FirstsInduct(p, svc);
    if svc == [] {
      NothingIsGood(p);
    } else {
      var n := |svc| - 1;
      FirstsAreGood(p, svc[..n]);
      CoveredMore(p, Firsts(p, svc[..n]), svc, n);
      if IsNew(p, svc, n) {
        GoodMore(p, Firsts(p, svc[..n]), svc, n);
      }
    }
  }

  lemma NothingIsGood(p: Parser)
    ensures AllValid(p, []) && AllDistinct(p, []) && Covers(p, [], [])
  {
  }

  // A new address joins the services kept so far.
  lemma GoodMore(p: Parser, before: seq<Service>, svc: seq<Service>, n: nat)
    requires n < |svc| && IsNew(p, svc, n) && AllValid(p, before) && AllDistinct(p, before)
    requires forall s :: s in before ==> s in svc[..n]
    ensures AllValid(p, before + [svc[n]]) && AllDistinct(p, before + [svc[n]])
  {
    hide AddrOf;
    NewIff(p, svc, n);
    forall i | 0 <= i < |before| ensures AddrOf(p, before[i]) != AddrOf(p, svc[n]) {
      assert before[i] in svc[..n];
      var m :| 0 <= m < n && svc[..n][m] == before[i];
      assert svc[m] == before[i];
    }
  }

  lemma FirstsInduct(p: Parser, svc: seq<Service>)
    ensures svc == [] ==> Firsts(p, svc) == []
    ensures svc != [] ==>
              var n := |svc| - 1;
              Firsts(p, svc) == if IsNew(p, svc, n) then Firsts(p, svc[..n]) + [svc[n]] else Firsts(p, svc[..n])
  {
  }

  lemma CoveredMore(p: Parser, before: seq<Service>, svc: seq<Service>, n: nat)
    requires n == |svc| - 1 && Covers(p, before, svc[..n])
    ensures Covers(p, if IsNew(p, svc, n) then before + [svc[n]] else before, svc)
  {
    hide ValidAddr;
    var after := if IsNew(p, svc, n) then before + [svc[n]] else before;
    forall s | s in svc && AddrOf(p, s).Some? ensures exists t :: t in after && AddrOf(p, t) == AddrOf(p, s) {
      if s in svc[..n] {
        var t :| t in before && AddrOf(p, t) == AddrOf(p, s);
        assert t in after;
      } else {
        assert s == svc[n];
        if IsNew(p, svc, n) {
          assert s in after;
        } else {
          var u :| u in svc[..n] && AddrOf(p, u) == AddrOf(p, s);
          var t :| t in before && AddrOf(p, t) == AddrOf(p, u);
          assert t in after;
        }
      }
    }
  }

  lemma ValidAddrsMore(p: Parser, svc: seq<Service>, i: nat)
    requires i < |svc|
    ensures ValidAddrs(p, svc[..i + 1]) ==
            ValidAddrs(p, svc[..i]) + (if AddrOf(p, svc[i]).Some? then {AddrOf(p, svc[i]).value} else {})
    ensures Firsts(p, svc[..i + 1]) == Firsts(p, svc[..i]) + (if IsNew(p, svc, i) then [svc[i]] else [])
  {
    hide ValidAddr;
    assert svc[..i + 1] == svc[..i] + [svc[i]];
    assert svc[..i + 1][..i] == svc[..i];
  }

  method Filter(p: Parser, svc: seq<Service>) returns (chosen: seq<Service>)
    ensures chosen == Firsts(p, svc)
  {
    hide ValidAddr, Firsts;
    var mp: set<string> := {};
    chosen := [];
    FirstsInduct(p, []);
    for i := 0 to |svc|
      invariant chosen == Firsts(p, svc[..i])
      invariant mp == ValidAddrs(p, svc[..i])
    {
      ValidAddrsMore(p, svc, i);
      var addr := ParseValidAddr(p, svc[i].endpoints);
      if addr == None {
        continue;
      }
      if addr.value in mp {
        continue;
      }
      mp := mp + {addr.value};
      chosen := chosen + [svc[i]];
    }
    assert svc[..|svc|] == svc;
  }

  // ---------- the subset policy ----------

  function Swapped(s: seq<Service>, i: nat, j: nat): (r: seq<Service>)
    requires i < |s| && j < |s|
    ensures |r| == |s|
  {
    s[i := s[j]][j := s[i]]
  }

  // The first n entries shuffled: each, from the last on, is exchanged with a random one of
  // those up to it.
  function Shuffled(s: seq<Service>, n: nat, random: nat -> nat): (r: seq<Service>)
    requires n <= |s|
    ensures |r| == |s|
    decreases n
  {
    if n <= 1 then s
    else Shuffled(Swapped(s, n - 1, random(n - 1) % n), n - 1, random)
  }

  lemma {:induction false} SameNumbers(s: seq<Service>, n: nat, random: nat -> nat, random': nat -> nat)
    requires n <= |s| && forall i: nat :: i < n ==> random(i) == random'(i)
    ensures Shuffled(s, n, random) == Shuffled(s, n, random')
    decreases n
  {
    if n > 1 {
      SameNumbers(Swapped(s, n - 1, random(n - 1) % n), n - 1, random, random');
    }
  }

  // Every order of the list is the outcome of some random numbers.
  lemma EveryOrderIsPossible(a: seq<Service>, b: seq<Service>) returns (random: nat -> nat)
    requires multiset(a) == multiset(b)
    ensures |a| == |b| && Shuffled(a, |a|, random) == b
  {
    assert |multiset(a)| == |a| && |multiset(b)| == |b|;
    assert a[..|a|] == a && b[..|b|] == b;
    random := OrderOfFront(a, b, |a|);
  }

  lemma {:induction false} OrderOfFront(a: seq<Service>, b: seq<Service>, n: nat) returns (random: nat -> nat)
    requires n <= |a| == |b| && a[n..] == b[n..] && multiset(a[..n]) == multiset(b[..n])
    ensures Shuffled(a, n, random) == b
    decreases n
  {
    hide Shuffled, Swapped;
    if n <= 1 {
      random := i => 0;
      OneIsShuffled(a, b, n, random);
    } else {
      var i := n - 1;
      var j := PositionIn(a, b, i);
      SwapsIntoPlace(a, b, i, j);
      var rest := OrderOfFront(Swapped(a, i, j), b, i);
      random := WithNumber(a, n, j, rest);
    }
  }

  lemma WithNumber(a: seq<Service>, n: nat, j: nat, rest: nat -> nat) returns (random: nat -> nat)
    requires 1 < n <= |a| && j < n
    ensures Shuffled(a, n, random) == Shuffled(Swapped(a, n - 1, j), n - 1, rest)
  {
    hide Shuffled, Swapped;
    random := k => if k == n - 1 then j else rest(k);
    SameNumbers(Swapped(a, n - 1, j), n - 1, rest, random);
    SmallRemainder(j, n);
    assert random(n - 1) == j;
    ShuffledOne(a, n, random);
  }

  lemma ShuffledOne(s: seq<Service>, n: nat, random: nat -> nat)
    requires 1 < n <= |s|
    ensures Shuffled(s, n, random) == Shuffled(Swapped(s, n - 1, random(n - 1) % n), n - 1, random)
  {
  }

  lemma OneIsShuffled(a: seq<Service>, b: seq<Service>, n: nat, random: nat -> nat)
    requires n <= 1 && n <= |a| == |b| && a[n..] == b[n..] && multiset(a[..n]) == multiset(b[..n])
    ensures Shuffled(a, n, random) == b
  {
    assert a == a[..n] + a[n..] && b == b[..n] + b[n..];
    if n == 1 {
      assert a[..1] == [a[0]] && b[..1] == [b[0]];
      assert a[0] in multiset(a[..1]);
    }
  }

  lemma PositionIn(a: seq<Service>, b: seq<Service>, i: nat) returns (j: nat)
    requires i < |a| == |b| && multiset(a[..i + 1]) == multiset(b[..i + 1])
    ensures j <= i && a[j] == b[i]
  {
    assert b[..i + 1][i] in multiset(b[..i + 1]);
    assert b[i] in a[..i + 1];
    j :| j < i + 1 && a[..i + 1][j] == b[i];
  }

  // Once the right entry is at i, the entries ahead of it are those of b.
  lemma SwapsIntoPlace(a: seq<Service>, b: seq<Service>, i: nat, j: nat)
    requires j <= i < |a| == |b| && a[j] == b[i]
    requires a[i + 1..] == b[i + 1..] && multiset(a[..i + 1]) == multiset(b[..i + 1])
    ensures var next := Swapped(a, i, j);
            next[i..] == b[i..] && multiset(next[..i]) == multiset(b[..i])
  {
    var next := Swapped(a, i, j);
    assert next[i..] == [b[i]] + a[i + 1..] && b[i..] == [b[i]] + b[i + 1..];
    assert next[..i] == if j < i then a[..i][j := a[i]] else a[..i];
    FrontSwapped(a[..i], if j < i then Some(j) else None, a[i]);
    OneLess(b, i);
    OneLess(a, i);
    if j < i {
      assert a[..i][j] == b[i];
    }
    Exchanged(multiset(a[..i]), multiset(b[..i]), multiset(next[..i]), a[i], b[i]);
  }

  // Where an entry is replaced, or none.
  lemma FrontSwapped(front: seq<Service>, at: Option<nat>, x: Service)
    requires at.Some? ==> at.value < |front|
    ensures at.Some? ==>
              multiset(front[at.value := x]) + multiset{front[at.value]} == multiset(front) + multiset{x}
  {
  }

  lemma Exchanged(a: multiset<Service>, b: multiset<Service>, next: multiset<Service>, x: Service, y: Service)
    requires a + multiset{x} == b + multiset{y} && next + multiset{y} == a + multiset{x}
    ensures next == b
  {
    forall z ensures next[z] == b[z] {
      assert (next + multiset{y})[z] == (b + multiset{y})[z];
    }
  }

  lemma OneLess(s: seq<Service>, i: nat)
    requires i < |s|
    ensures multiset(s[..i + 1]) == multiset(s[..i]) + multiset{s[i]}
  {
    assert s[..i + 1] == s[..i] + [s[i]];
  }

  lemma {:induction false} ShuffledPermutes(s: seq<Service>, n: nat, random: nat -> nat)
    requires n <= |s|
    ensures multiset(Shuffled(s, n, random)) == multiset(s)
    decreases n
  {
    if n > 1 {
      var next := Swapped(s, n - 1, random(n - 1) % n);
      SwapPermutes(s, n - 1, random(n - 1) % n);
      ShuffledPermutes(next, n - 1, random);
    }
  }

  lemma SwapPermutes(s: seq<Service>, i: nat, j: nat)
    requires i < |s| && j < |s|
    ensures multiset(Swapped(s, i, j)) == multiset(s)
  {
  }

  lemma ShuffledDone(s: seq<Service>, n: nat, random: nat -> nat)
    requires n <= |s| && n <= 1
    ensures Shuffled(s, n, random) == s
  {
  }

  // rand.Shuffle followed by the truncation; the random numbers are given by `random`.
  class Shuffle {
    constructor () {
    }

    method Subset(list: array<Service>, size: nat, random: nat -> nat) returns (r: seq<Service>)
      modifies list
      ensures list[..] == Shuffled(old(list[..]), list.Length, random)
      ensures multiset(list[..]) == multiset(old(list[..]))
      ensures r == list[..if list.Length <= size then list.Length else size]
    {
      hide Shuffled;
      var i := list.Length - 1;
      while i > 0
        invariant -1 <= i < list.Length && (list.Length > 0 ==> i >= 0)
        invariant Shuffled(list[..], i + 1, random) == Shuffled(old(list[..]), list.Length, random)
      {
        ghost var before := list[..];
        var j := random(i) % (i + 1);
        list[i], list[j] := list[j], list[i];
        assert list[..] == Swapped(before, i, j);
        ShuffledOne(before, i + 1, random);
        i := i - 1;
      }
      ShuffledDone(list[..], i + 1, random);
      ShuffledPermutes(old(list[..]), list.Length, random);
      if list.Length <= size {
        return list[..];
      }
      r := list[..size];
    }
  }

  // A permutation of distinct services is distinct, and so is every prefix of it.
  lemma {:induction false} PermutedDistinct(p: Parser, a: seq<Service>, b: seq<Service>)
    requires multiset(a) == multiset(b) && AllDistinct(p, a)
    ensures AllDistinct(p, b)
  {
    hide ValidAddr;
    forall i, j | 0 <= i < j < |b| ensures AddrOf(p, b[i]) != AddrOf(p, b[j]) {
      if b[i] == b[j] {
        OnceIn(p, a, b[i]);
        TwiceIn(b, i, j);
      } else {
        assert b[i] in multiset(a) && b[j] in multiset(a);
        var k :| 0 <= k < |a| && a[k] == b[i];
        var l :| 0 <= l < |a| && a[l] == b[j];
      }
    }
  }

  lemma TwiceIn(b: seq<Service>, i: nat, j: nat)
    requires i < j < |b| && b[i] == b[j]
    ensures multiset(b)[b[i]] >= 2
  {
    assert b == b[..j] + [b[j]] + b[j + 1..];
    assert b[i] in b[..j];
  }

  lemma {:induction false} OnceIn(p: Parser, a: seq<Service>, s: Service)
    requires AllDistinct(p, a)
    ensures multiset(a)[s] <= 1
  {
    if a != [] {
      var n := |a| - 1;
      OnceIn(p, a[..n], s);
      assert a == a[..n] + [a[n]];
      if a[n] == s {
        forall k | 0 <= k < n ensures a[..n][k] != s {
          assert AddrOf(p, a[k]) != AddrOf(p, a[n]);
        }
        assert s !in a[..n];
      }
    }
  }

  // ---------- update ----------

  // An address carries a service's name and valid address.
  predicate Carries(p: Parser, a: Address, s: Service) {
    ValidAddr(p, s.endpoints) == Some(a.addr) && s.name == a.serverName
  }

  // What is published for a service list under a size limit, if anything: distinct valid
  // addresses, each of the first service that has it; all of them when the limit allows,
  // else as many as the limit; in the order of the list when there is no limit; never an
  // empty list.
  ghost predicate Contract(p: Parser, svc: seq<Service>, limit: Option<nat>, published: Option<seq<Address>>) {
    var valid, first := ValidAddrs(p, svc), Firsts(p, svc);
    match published
    case None => valid == {}
    case Some(addresses) =>
      && addresses != []
      && (forall i, j :: 0 <= i < j < |addresses| ==> addresses[i].addr != addresses[j].addr)
      && (forall a :: a in addresses ==> exists s :: s in first && Carries(p, a, s))
      && (if limit == None || |valid| <= limit.value
          then (set a | a in addresses :: a.addr) == valid
          else |addresses| == limit.value)
      && (limit == None ==>
            |addresses| == |first| && forall k :: 0 <= k < |first| ==> Carries(p, addresses[k], first[k]))
  }

  // A list of distinct addresses has as many entries as there are addresses.
  lemma {:induction false} CountDistinct(p: Parser, list: seq<Service>)
    requires AllValid(p, list) && AllDistinct(p, list)
    ensures |ValidAddrs(p, list)| == |list|
  {
    hide ValidAddr;
    if list != [] {
      var n := |list| - 1;
      CountDistinct(p, list[..n]);
      var a := AddrOf(p, list[n]).value;
      forall b ensures b in ValidAddrs(p, list) <==> b in ValidAddrs(p, list[..n]) || b == a {
        assert list == list[..n] + [list[n]];
      }
      assert a !in ValidAddrs(p, list[..n]);
      assert ValidAddrs(p, list) == ValidAddrs(p, list[..n]) + {a};
    }
  }

  lemma CoversAll(p: Parser, list: seq<Service>, svc: seq<Service>)
    requires Covers(p, list, svc) && forall s :: s in list ==> s in svc
    ensures ValidAddrs(p, list) == ValidAddrs(p, svc)
  {
    hide ValidAddr;
    forall b ensures b in ValidAddrs(p, list) <==> b in ValidAddrs(p, svc) {
      if b in ValidAddrs(p, svc) {
        var s :| s in svc && AddrOf(p, s) == Some(b);
        var t :| t in list && AddrOf(p, t) == AddrOf(p, s);
      }
    }
  }

  /** parser.update: what it hands to UpdateState, if it calls it at all. */
  method Update(p: Parser, svc: seq<Service>, policy: bool, size: int, random: nat -> nat)
    returns (published: Option<seq<Address>>)
    ensures Contract(p, svc, if policy && size > 0 then Some(size) else None, published)
  {
    hide ValidAddr, AllValid, AllDistinct, Covers, Contract, Firsts, ValidAddrs;
    var chosen := Filter(p, svc);
    FirstsAreGood(p, svc);
    ghost var all := chosen;
    if policy && size > 0 {
      chosen := Limited(p, svc, chosen, size, random);
    }
    var addresses := Addresses(p, chosen);
    if |addresses| == 0 {
      published := None;
    } else {
      published := Some(addresses);
    }
    CoversAll(p, all, svc);
    CountDistinct(p, all);
    Published(p, svc, chosen, if policy && size > 0 then Some(size) else None, addresses);
  }

  method Limited(p: Parser, ghost svc: seq<Service>, all: seq<Service>, size: nat, random: nat -> nat)
    returns (chosen: seq<Service>)
    requires AllValid(p, all) && AllDistinct(p, all) && Covers(p, all, svc)
    ensures AllValid(p, chosen) && AllDistinct(p, chosen)
    ensures forall s :: s in chosen ==> s in all
    ensures |chosen| == |all| ==> Covers(p, chosen, svc)
    ensures |chosen| == if |all| <= size then |all| else size
  {
    hide ValidAddr, AllValid, AllDistinct, Covers;
    var list := new Service[|all|](i requires 0 <= i < |all| => all[i]);
    assert list[..] == all;
    var shuffle := new Shuffle();
    chosen := shuffle.Subset(list, size, random);
    Truncated(p, svc, all, list[..], chosen);
  }

  method Addresses(p: Parser, chosen: seq<Service>) returns (addresses: seq<Address>)
    requires AllValid(p, chosen)
    ensures |addresses| == |chosen|
    ensures forall k :: 0 <= k < |addresses| ==> Carries(p, addresses[k], chosen[k])
  {
    hide ValidAddr;
    addresses := [];
    for i := 0 to |chosen|
      invariant |addresses| == i
      invariant forall k :: 0 <= k < i ==> Carries(p, addresses[k], chosen[k])
    {
      var addr := ParseValidAddr(p, chosen[i].endpoints);
      assert AddrOf(p, chosen[i]).Some?;
      addresses := addresses + [Address(chosen[i].name, addr.value)];
    }
  }

  lemma Truncated(p: Parser, svc: seq<Service>, all: seq<Service>, list: seq<Service>, chosen: seq<Service>)
    requires AllValid(p, all) && AllDistinct(p, all) && Covers(p, all, svc)
    requires multiset(list) == multiset(all) && chosen <= list
    ensures AllValid(p, chosen) && AllDistinct(p, chosen)
    ensures forall s :: s in chosen ==> s in all
    ensures |chosen| == |list| ==> Covers(p, chosen, svc)
    ensures |list| == |all|
  {
    hide AllDistinct, AddrOf, AllValid, Covers;
    assert |multiset(list)| == |list| && |multiset(all)| == |all|;
    PermutedDistinct(p, all, list);
    PrefixDistinct(p, list, chosen);
    forall s | s in chosen ensures s in all {
      assert s in multiset(list);
    }
    PartIsValid(p, all, chosen);
    if |chosen| == |list| {
      forall t | t in all ensures t in chosen {
        assert t in multiset(all);
      }
      SameCovers(p, all, chosen, svc);
    }
  }

  lemma PartIsValid(p: Parser, all: seq<Service>, chosen: seq<Service>)
    requires AllValid(p, all) && forall s :: s in chosen ==> s in all
    ensures AllValid(p, chosen)
  {
    hide AddrOf;
    forall i | 0 <= i < |chosen| ensures AddrOf(p, chosen[i]).Some? {
      assert chosen[i] in all;
      var k :| 0 <= k < |all| && all[k] == chosen[i];
    }
  }

  lemma SameCovers(p: Parser, all: seq<Service>, chosen: seq<Service>, svc: seq<Service>)
    requires Covers(p, all, svc) && forall t :: t in all ==> t in chosen
    ensures Covers(p, chosen, svc)
  {
    hide AddrOf;
    forall s | s in svc && AddrOf(p, s).Some? ensures exists t :: t in chosen && AddrOf(p, t) == AddrOf(p, s) {
      var t :| t in all && AddrOf(p, t) == AddrOf(p, s);
      assert t in chosen;
    }
  }

  lemma PrefixDistinct(p: Parser, list: seq<Service>, chosen: seq<Service>)
    requires AllDistinct(p, list) && chosen <= list
    ensures AllDistinct(p, chosen)
  {
    hide AddrOf;
  }

  lemma Published(p: Parser, svc: seq<Service>, chosen: seq<Service>, limit: Option<nat>, addresses: seq<Address>)
    requires AllDistinct(p, chosen) && |addresses| == |chosen|
    requires forall s :: s in chosen ==> s in svc
    requires forall s :: s in chosen ==> s in Firsts(p, svc)
    requires var total := |ValidAddrs(p, svc)|;
             && (|chosen| == total ==> Covers(p, chosen, svc))
             && |chosen| == if limit == None || total <= limit.value then total else limit.value
    requires limit == None ==> chosen == Firsts(p, svc)
    requires limit.Some? ==> limit.value > 0
    requires forall k :: 0 <= k < |addresses| ==> Carries(p, addresses[k], chosen[k])
    ensures Contract(p, svc, limit, if addresses == [] then None else Some(addresses))
  {
    hide AddrOf, Firsts, Covers, ValidAddrs, AllDistinct;
    AddressesDistinct(p, chosen, addresses);
    forall a | a in addresses ensures exists s :: s in Firsts(p, svc) && Carries(p, a, s) {
      var k :| 0 <= k < |addresses| && addresses[k] == a;
      assert chosen[k] in chosen;
    }
    if |chosen| == |ValidAddrs(p, svc)| {
      CoversAll(p, chosen, svc);
      AddressSet(p, chosen, addresses);
    }
  }

  lemma AddressesDistinct(p: Parser, chosen: seq<Service>, addresses: seq<Address>)
    requires AllDistinct(p, chosen) && |addresses| == |chosen|
    requires forall k :: 0 <= k < |addresses| ==> Carries(p, addresses[k], chosen[k])
    ensures forall i, j :: 0 <= i < j < |addresses| ==> addresses[i].addr != addresses[j].addr
  {
    hide ValidAddr;
    forall i, j | 0 <= i < j < |addresses| ensures addresses[i].addr != addresses[j].addr {
      assert Carries(p, addresses[i], chosen[i]) && Carries(p, addresses[j], chosen[j]);
    }
  }

  lemma {:induction false} AddressSet(p: Parser, chosen: seq<Service>, addresses: seq<Address>)
    requires |addresses| == |chosen| && forall k :: 0 <= k < |addresses| ==> Carries(p, addresses[k], chosen[k])
    ensures (set a | a in addresses :: a.addr) == ValidAddrs(p, chosen)
  {
    hide ValidAddr;
    forall b ensures b in ValidAddrs(p, chosen) <==> b in (set a | a in addresses :: a.addr) {
      if b in ValidAddrs(p, chosen) {
        var t :| t in chosen && AddrOf(p, t) == Some(b);
        var k :| 0 <= k < |chosen| && chosen[k] == t;
        assert Carries(p, addresses[k], chosen[k]) && addresses[k] in addresses;
      }
      if b in (set a | a in addresses :: a.addr) {
        var a :| a in addresses && a.addr == b;
        var k :| 0 <= k < |addresses| && addresses[k] == a;
        assert Carries(p, addresses[k], chosen[k]) && chosen[k] in chosen;
      }
    }
  }

  // The nodes of a connection: one for each of some of the published addresses, in any
  // order, with any positive weights.
  ghost predicate BuiltFrom(nodes: seq<SmoothWrr.Node>, addresses: seq<Address>, at: seq<nat>) {
    && |at| == |nodes|
    && (forall i, j :: 0 <= i < j < |at| ==> at[i] != at[j])
    && (forall i :: 0 <= i < |at| ==> at[i] < |addresses| && nodes[i].addr == addresses[at[i]].addr)
    && SmoothWrr.Positive(nodes)
  }

  // From the resolver to the balancer: nodes built from anything ever published are picked
  // with exact fairness, whatever other lists with other addresses use the picker.
  lemma PublishedIsFair(p: Parser, svc: seq<Service>, limit: Option<nat>, addresses: seq<Address>,
                        nodes: seq<SmoothWrr.Node>, at: seq<nat>,
                        m: map<string, int>, lists: seq<seq<SmoothWrr.Node>>)
    requires Contract(p, svc, limit, Some(addresses)) && nodes != [] && BuiltFrom(nodes, addresses, at)
    requires SmoothWrr.FreshFor(m, nodes) && SmoothWrr.Independent(lists, nodes)
    requires SmoothWrr.Turns(lists, nodes) == SmoothWrr.Total(nodes)
    ensures SmoothWrr.Distinct(nodes)
    ensures SmoothWrr.Picks(m, lists, nodes) == SmoothWrr.Weights(nodes)
  {
    hide SmoothWrr.Picks, SmoothWrr.Turns, SmoothWrr.Independent, SmoothWrr.FreshFor, SmoothWrr.Total;
    PublishedIsDistinct(p, svc, limit, addresses, nodes, at);
    SmoothWrr.ExactFairness(m, lists, nodes);
  }

  lemma PublishedIsDistinct(p: Parser, svc: seq<Service>, limit: Option<nat>, addresses: seq<Address>,
                            nodes: seq<SmoothWrr.Node>, at: seq<nat>)
    requires Contract(p, svc, limit, Some(addresses)) && BuiltFrom(nodes, addresses, at)
    ensures SmoothWrr.Distinct(nodes)
  {
    forall i, j | 0 <= i < j < |nodes| ensures nodes[i].addr != nodes[j].addr {
      assert at[i] < at[j] || at[j] < at[i];
    }
  }
}
