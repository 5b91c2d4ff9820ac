// One worker of the batch pool: Batch.do in pkg/future/batch.go.
//
// Values are opaque to the pool; integers stand for them.
module BatchWorker {
  import opened Wrappers
  import opened Sums

  datatype Item = Item(key: string, value: int)

  // What one turn of the select statement delivers: a receive, nil being the sentinel, or a tick.
  datatype Input = FromChannel(item: Option<Item>) | FromTicker

  type Messages = map<string, seq<int>>

  // The goroutine's variables between two turns of its loop, and its calls of exec.
  datatype Local = Local(msg: Messages, num: int, adjust: bool, returned: bool, execs: seq<Messages>)

  const START: Local := Local(map[], 0, false, false, [])

  function Get(m: Messages, key: string): (r: seq<int>) {
    if key in m then m[key] else []
  }

  function Put(m: Messages, item: Item): (r: Messages) {
    m[item.key := Get(m, item.key) + [item.value]]
  }

  function Flush(l: Local): (r: Local) {
    if l.msg != map[] then l.(msg := map[], num := 0, execs := l.execs + [l.msg]) else l
  }

  // One turn of the loop.
  function Turn(num: int, l: Local, input: Input): (r: Local) {
    if l.returned then l
    else match input
      case FromChannel(None) => Flush(l).(returned := true)
      case FromChannel(Some(item)) =>
        var more := l.(msg := Put(l.msg, item), num := l.num + 1);
        if more.num < num then more else Flush(more)
      case FromTicker => Flush(l).(adjust := false)
  }

  function Turns(num: int, start: Local, inputs: seq<Input>): (r: Local) {
    if inputs == [] then start
    else Turn(num, Turns(num, start, inputs[..|inputs| - 1]), inputs[|inputs| - 1])
  }

  /** The goroutine.  The inputs are the outcomes of its select statement; the loop ends
      at the sentinel or when the inputs given so far are used up. */
  method Do(num: int, index: nat, inputs: seq<Input>) returns (execs: seq<Messages>, msg: Messages, returned: bool)
    ensures var l := Turns(num, START.(adjust := index > 0), inputs);
            execs == l.execs && msg == l.msg && returned == l.returned
    ensures exists chunks, rest :: Serves(num, inputs, execs, msg, returned, chunks, rest)
    ensures inputs != [] && inputs[|inputs| - 1] == FromTicker ==>
              msg == map[] && forall key :: Delivered(execs, key) == Values(Received(inputs), key)
  {
    hide Turns, Serves, Received, Delivered;
    var count, stop, adjust := 0, false, index > 0;
    ghost var adjust0 := adjust;
    ghost var start := START.(adjust := adjust0);
    msg, execs, returned := map[], [], false;
    var i := 0;
    TurnsNone(num, start);
    assert inputs[..0] == [];
    while i < |inputs| && !returned
      invariant i <= |inputs|
      invariant Turns(num, start, inputs[..i]) == Local(msg, count, adjust, returned, execs)
      invariant stop == returned
    {
      TurnsOne(num, start, inputs, i);
      i := i + 1;
      match inputs[i - 1] {
        case FromChannel(None) =>
          stop := true;
        case FromChannel(Some(item)) =>
          count := count + 1;
          msg := msg[item.key := (if item.key in msg then msg[item.key] else []) + [item.value]];
          if count < num {
            continue;
          }
        case FromTicker =>
          if adjust {
            adjust := false;
          }
      }
      if |msg| > 0 {
        execs := execs + [msg];
        msg := map[];
        count := 0;
      }
      if stop {
        returned := true;
      }
    }
    ReturnedStays(num, start, inputs, i);
    assert inputs[..|inputs|] == inputs;
    ghost var chunks, rest := WorkerServes(num, adjust0, inputs);
    if inputs != [] && inputs[|inputs| - 1] == FromTicker {
      TickFlushes(num, adjust0, inputs, "");
      forall key ensures Delivered(execs, key) == Values(Received(inputs), key) {
        TickFlushes(num, adjust0, inputs, key);
      }
    }
  }

  lemma TurnsNone(num: int, start: Local)
    ensures Turns(num, start, []) == start
  {
  }

  lemma TurnsOne(num: int, start: Local, inputs: seq<Input>, i: nat)
    requires i < |inputs|
    ensures Turns(num, start, inputs[..i + 1]) == Turn(num, Turns(num, start, inputs[..i]), inputs[i])
  {
    assert inputs[..i + 1][..i] == inputs[..i];
  }

  lemma {:induction false} ReturnedStays(num: int, start: Local, inputs: seq<Input>, i: nat)
    requires i <= |inputs| && (i == |inputs| || Turns(num, start, inputs[..i]).returned)
    ensures Turns(num, start, inputs) == Turns(num, start, inputs[..i])
    decreases |inputs| - i
  {
    if i == |inputs| {
      assert inputs[..i] == inputs;
    } else {
      TurnsOne(num, start, inputs, i);
      ReturnedStays(num, start, inputs, i + 1);
    }
  }

  // ---------- what the worker does to its items ----------

  // The items received ahead of the sentinel.
  function Received(inputs: seq<Input>): (r: seq<Item>) {
    if inputs == [] then []
    else
      var n := |inputs| - 1;
      var before := Received(inputs[..n]);
      if Stopped(inputs[..n]) then before
      else match inputs[n]
        case FromChannel(Some(item)) => before + [item]
        case _ => before
  }

  predicate Stopped(inputs: seq<Input>) {
    FromChannel(None) in inputs
  }

  // The values of one key, in order.
  function Values(items: seq<Item>, key: string): (r: seq<int>) {
    if items == [] then []
    else
      var n := |items| - 1;
      Values(items[..n], key) + (if items[n].key == key then [items[n].value] else [])
  }

  lemma {:induction false} ValuesAppend(a: seq<Item>, b: seq<Item>, key: string)
    ensures Values(a + b, key) == Values(a, key) + Values(b, key)
  {
    if b == [] {
      assert a + b == a;
    } else {
      var n := |b| - 1;
      ValuesAppend(a, b[..n], key);
      assert (a + b)[..|a| + n] == a + b[..n];
    }
  }

  // The map that collects a chunk of items by key.
  function Group(items: seq<Item>): (m: Messages)
    ensures m == map[] <==> items == []
  {
    if items == [] then map[] else Put(Group(items[..|items| - 1]), items[|items| - 1])
  }

  // A chunk holds for every key its values in order, and nothing else.
  lemma {:induction false} GroupIsExact(items: seq<Item>, key: string)
    ensures Get(Group(items), key) == Values(items, key)
    ensures key in Group(items) <==> Values(items, key) != []
  {
    if items != [] {
      GroupIsExact(items[..|items| - 1], key);
    }
  }

  // The number of items in a message map.
  ghost function Size(m: Messages): (r: int) {
    SumMap(map k | k in m :: |m[k]|)
  }

  lemma {:induction false} GroupSize(items: seq<Item>)
    ensures Size(Group(items)) == |items|
  {
    if items != [] {
      var n := |items| - 1;
      var g := Group(items[..n]);
      GroupSize(items[..n]);
      var sizes := map k | k in g :: |g[k]|;
      var g' := Put(g, items[n]);
      SumMapUpdate(sizes, items[n].key, |Get(g, items[n].key)| + 1);
      assert (map k | k in g' :: |g'[k]|) == sizes[items[n].key := |Get(g, items[n].key)| + 1];
    }
  }

  function Flat(chunks: seq<seq<Item>>): (r: seq<Item>) {
    if chunks == [] then [] else Flat(chunks[..|chunks| - 1]) + chunks[|chunks| - 1]
  }

  function Groups(chunks: seq<seq<Item>>): (s: seq<Messages>)
    ensures |s| == |chunks|
  {
    seq(|chunks|, i requires 0 <= i < |chunks| => Group(chunks[i]))
  }

  // The items received are cut into consecutive chunks, one per call of exec, and a rest.
  ghost predicate Cut(num: int, items: seq<Item>, l: Local, chunks: seq<seq<Item>>, rest: seq<Item>) {
    && items == Flat(chunks) + rest
    && l.execs == Groups(chunks)
    && l.msg == Group(rest)
    && l.num == |rest|
    && (forall i :: 0 <= i < |chunks| ==> 1 <= |chunks[i]| && (|chunks[i]| <= num || |chunks[i]| == 1))
    && (rest == [] || |rest| < num)
    && (l.returned ==> rest == [])
  }

  // The size of a full chunk.
  function Full(num: int): (n: nat) { if num < 1 then 1 else num }

  // After its n-th item and before the next one the worker saw a tick or the sentinel.
  ghost predicate Interrupted(inputs: seq<Input>, n: nat) {
    exists j: nat :: Interrupts(inputs, j, n)
  }

  ghost predicate Interrupts(inputs: seq<Input>, j: nat, n: nat) {
    && j < |inputs|
    && (inputs[j] == FromTicker || inputs[j] == FromChannel(None))
    && !Stopped(inputs[..j])
    && |Received(inputs[..j])| == n
  }

  // How many items the chunks up to the k-th hold.
  function End(chunks: seq<seq<Item>>, k: nat): (n: nat)
    requires k < |chunks|
  {
    |Flat(chunks[..k + 1])|
  }

  // A chunk ends when it is full or when the worker is interrupted, and there whenever the
  // worker is interrupted.
  ghost predicate Timely(num: int, inputs: seq<Input>, chunks: seq<seq<Item>>) {
    && (forall k: nat :: k < |chunks| ==> |chunks[k]| == Full(num) || Interrupted(inputs, End(chunks, k)))
    && (forall n: nat :: n > 0 && Interrupted(inputs, n) ==> exists k: nat :: k < |chunks| && End(chunks, k) == n)
  }

  // What a worker has done with its inputs: the items received are cut into consecutive
  // chunks and a rest.  The chunks were given to exec, in order, each grouped by key; the
  // rest is pending.  A chunk is never longer than full, the rest is shorter, and both end
  // in time.
  ghost predicate Serves(num: int, inputs: seq<Input>, execs: seq<Messages>, msg: Messages, returned: bool,
                         chunks: seq<seq<Item>>, rest: seq<Item>) {
    && Received(inputs) == Flat(chunks) + rest
    && execs == Groups(chunks)
    && msg == Group(rest)
    && (forall k: nat :: k < |chunks| ==> 1 <= |chunks[k]| <= Full(num))
    && Timely(num, inputs, chunks)
    && (rest == [] || |rest| < num)
    && (returned <==> Stopped(inputs))
    && (returned ==> rest == [])
  }

  lemma CutFlush(num: int, items: seq<Item>, l: Local, chunks: seq<seq<Item>>, rest: seq<Item>)
    returns (chunks': seq<seq<Item>>)
    requires items == Flat(chunks) + rest && l.execs == Groups(chunks) && l.msg == Group(rest) && l.num == |rest|
    requires forall i :: 0 <= i < |chunks| ==> 1 <= |chunks[i]| && (|chunks[i]| <= num || |chunks[i]| == 1)
    requires |rest| <= num || |rest| <= 1
    ensures Cut(num, items, Flush(l), chunks', [])
    ensures chunks' == if rest == [] then chunks else chunks + [rest]
  {
    if rest == [] {
      chunks' := chunks;
    } else {
      chunks' := chunks + [rest];
      assert chunks'[..|chunks|] == chunks;
    }
    assert Flat(chunks') + [] == Flat(chunks');
  }

  lemma ReceivedOne(inputs: seq<Input>, input: Input)
    ensures Stopped(inputs + [input]) <==> Stopped(inputs) || input == FromChannel(None)
    ensures Received(inputs + [input]) ==
            if !Stopped(inputs) && input.FromChannel? && input.item.Some?
            then Received(inputs) + [input.item.value] else Received(inputs)
  {
    assert (inputs + [input])[..|inputs|] == inputs;
  }

  lemma GroupOne(items: seq<Item>, item: Item)
    ensures Group(items + [item]) == Put(Group(items), item)
  {
    assert (items + [item])[..|items|] == items;
  }

  lemma CutItem(num: int, items: seq<Item>, l: Local, item: Item, chunks: seq<seq<Item>>, rest: seq<Item>)
    returns (chunks': seq<seq<Item>>, rest': seq<Item>)
    requires Cut(num, items, l, chunks, rest) && !l.returned
    ensures Cut(num, items + [item], Turn(num, l, FromChannel(Some(item))), chunks', rest')
    ensures chunks' == chunks || (chunks' == chunks + [rest + [item]] && |rest| + 1 == Full(num))
  {
    hide Groups, Flat, Group, Put, Flush;
    chunks', rest' := chunks, rest + [item];
    GroupOne(rest, item);
    assert items + [item] == Flat(chunks) + rest';
    var more := l.(msg := Put(l.msg, item), num := l.num + 1);
    if more.num >= num {
      chunks' := CutFlush(num, items + [item], more, chunks, rest');
      rest' := [];
    }
  }

  lemma CutTurn(num: int, inputs: seq<Input>, l: Local, input: Input, chunks: seq<seq<Item>>, rest: seq<Item>)
    returns (chunks': seq<seq<Item>>, rest': seq<Item>)
    requires Cut(num, Received(inputs), l, chunks, rest) && l.returned == Stopped(inputs)
    requires Timely(num, inputs, chunks)
    ensures Cut(num, Received(inputs + [input]), Turn(num, l, input), chunks', rest')
    ensures Turn(num, l, input).returned == Stopped(inputs + [input])
    ensures Timely(num, inputs + [input], chunks')
  {
    hide Groups, Flat, Received, Stopped, Timely;
    ReceivedOne(inputs, input);
    chunks', rest' := chunks, rest;
    if !l.returned {
      if input.FromChannel? && input.item.Some? {
        chunks', rest' := CutItem(num, Received(inputs), l, input.item.value, chunks, rest);
      } else {
        chunks' := CutFlush(num, Received(inputs), l, chunks, rest);
        rest' := [];
      }
    }
    TimelyTurn(num, inputs, input, chunks, rest, chunks');
  }

  lemma InterruptedMore(inputs: seq<Input>, input: Input, n: nat)
    ensures Interrupted(inputs + [input], n) <==>
              || Interrupted(inputs, n)
              || (!Stopped(inputs) && (input == FromTicker || input == FromChannel(None)) && n == |Received(inputs)|)
  {
    hide Received, Stopped;
    var more := inputs + [input];
    assert more[..|inputs|] == inputs;
    forall j: nat | j < |inputs| ensures Interrupts(more, j, n) <==> Interrupts(inputs, j, n) {
      assert more[..j] == inputs[..j];
    }
    assert Interrupts(more, |inputs|, n) <==>
             !Stopped(inputs) && (input == FromTicker || input == FromChannel(None)) && n == |Received(inputs)|;
  }

  lemma EndMore(chunks: seq<seq<Item>>, chunk: seq<Item>, k: nat)
    requires k <= |chunks|
    ensures End(chunks + [chunk], k) == if k < |chunks| then End(chunks, k) else |Flat(chunks)| + |chunk|
  {
    var more := chunks + [chunk];
    if k < |chunks| {
      assert more[..k + 1] == chunks[..k + 1];
    } else {
      assert more[..k + 1] == more && more[..|chunks|] == chunks;
    }
  }

  lemma LastEnd(chunks: seq<seq<Item>>)
    requires chunks != []
    ensures End(chunks, |chunks| - 1) == |Flat(chunks)|
  {
    assert chunks[..|chunks|] == chunks;
  }

  lemma TimelyTurn(num: int, inputs: seq<Input>, input: Input, chunks: seq<seq<Item>>, rest: seq<Item>,
                   chunks': seq<seq<Item>>)
    requires Received(inputs) == Flat(chunks) + rest && Timely(num, inputs, chunks)
    requires Stopped(inputs) ==> chunks' == chunks
    requires !Stopped(inputs) && (input == FromTicker || input == FromChannel(None)) ==>
               chunks' == if rest == [] then chunks else chunks + [rest]
    requires !Stopped(inputs) && input != FromTicker && input != FromChannel(None) ==>
               || chunks' == chunks
               || (|chunks'| == |chunks| + 1 && chunks' == chunks + [chunks'[|chunks|]] && |chunks'[|chunks|]| == Full(num))
    ensures Timely(num, inputs + [input], chunks')
  {
    hide Received, Stopped, Interrupted, End, Flat;
    var more := inputs + [input];
    var m := |chunks|;
    forall k: nat | k < m ensures End(chunks', k) == End(chunks, k) {
      if chunks' != chunks {
        EndMore(chunks, chunks'[m], k);
      }
    }
    if chunks' != chunks {
      EndMore(chunks, chunks'[m], m);
    } else if m > 0 {
      LastEnd(chunks);
    } else {
      FlatNone();
    }
    forall k: nat | k < |chunks'| ensures |chunks'[k]| == Full(num) || Interrupted(more, End(chunks', k)) {
      InterruptedMore(inputs, input, End(chunks', k));
    }
    forall n: nat | n > 0 && Interrupted(more, n) ensures exists k: nat :: k < |chunks'| && End(chunks', k) == n {
      InterruptedMore(inputs, input, n);
      if Interrupted(inputs, n) {
        var k: nat :| k < |chunks| && End(chunks, k) == n;
        assert End(chunks', k) == n;
      } else {
        assert End(chunks', |chunks'| - 1) == n;
      }
    }
  }

  lemma FlatNone()
    ensures Flat([]) == []
  {
  }

  // Every item received ahead of the sentinel is in exactly one call of exec or still pending;
  // a call holds between 1 and num items (1 when num is smaller); a worker that has
  // returned has nothing pending.
  lemma {:induction false} WorkerCuts(num: int, adjust: bool, inputs: seq<Input>)
    returns (chunks: seq<seq<Item>>, rest: seq<Item>)
    ensures Cut(num, Received(inputs), Turns(num, START.(adjust := adjust), inputs), chunks, rest)
    ensures Turns(num, START.(adjust := adjust), inputs).returned == Stopped(inputs)
    ensures Timely(num, inputs, chunks)
  {
    hide Timely;
    if inputs == [] {
      chunks, rest := [], [];
      TimelyNone(num);
    } else {
      var n := |inputs| - 1;
      chunks, rest := WorkerCuts(num, adjust, inputs[..n]);
      assert inputs == inputs[..n] + [inputs[n]];
      chunks, rest := CutTurn(num, inputs[..n], Turns(num, START.(adjust := adjust), inputs[..n]), inputs[n], chunks, rest);
    }
  }

  lemma TimelyNone(num: int)
    ensures Timely(num, [], [])
  {
  }

  lemma WorkerServes(num: int, adjust: bool, inputs: seq<Input>) returns (chunks: seq<seq<Item>>, rest: seq<Item>)
    ensures var l := Turns(num, START.(adjust := adjust), inputs);
            Serves(num, inputs, l.execs, l.msg, l.returned, chunks, rest)
  {
    hide Turns, Received, Timely, Flat, Groups, Group;
    chunks, rest := WorkerCuts(num, adjust, inputs);
  }

  // ---------- the cut is determined ----------

  // The items of the first k chunks are a prefix of all items.
  lemma {:induction false} FlatPrefix(chunks: seq<seq<Item>>, k: nat)
    requires k <= |chunks|
    ensures Flat(chunks[..k]) <= Flat(chunks)
  {
    if k == |chunks| {
      assert chunks[..k] == chunks;
    } else {
      var n := |chunks| - 1;
      FlatPrefix(chunks[..n], k);
      assert chunks[..n][..k] == chunks[..k];
    }
  }

  lemma FlatNext(chunks: seq<seq<Item>>, k: nat)
    requires k < |chunks|
    ensures Flat(chunks[..k + 1]) == Flat(chunks[..k]) + chunks[k]
  {
    assert chunks[..k + 1][..k] == chunks[..k];
  }

  lemma EndsInOrder(chunks: seq<seq<Item>>, i: nat, j: nat)
    requires i <= j < |chunks|
    ensures End(chunks, i) <= End(chunks, j) <= |Flat(chunks)|
  {
    FlatPrefix(chunks[..j + 1], i + 1);
    assert chunks[..j + 1][..i + 1] == chunks[..i + 1];
    FlatPrefix(chunks, j + 1);
  }

  // A chunk that is not full ends at an interruption, where every cut ends a chunk.
  lemma ShorterEnds(num: int, inputs: seq<Input>, a: seq<seq<Item>>, b: seq<seq<Item>>, k: nat)
    requires Timely(num, inputs, a) && Timely(num, inputs, b)
    requires k < |a| && k <= |b| && Flat(a[..k]) == Flat(b[..k])
    requires 0 < |a[k]| < Full(num)
    ensures exists j: nat :: k <= j < |b| && End(b, j) == End(a, k)
  {
    hide Interrupted;
    FlatNext(a, k);
    var j: nat :| j < |b| && End(b, j) == End(a, k);
    if j < k {
      EndsInOrder(b, j, k - 1);
    }
  }

  lemma NotLonger(num: int, inputs: seq<Input>, a: seq<seq<Item>>, b: seq<seq<Item>>, k: nat)
    requires Timely(num, inputs, a) && Timely(num, inputs, b)
    requires k < |a| && k < |b| && Flat(a[..k]) == Flat(b[..k])
    requires 0 < |a[k]| && |b[k]| <= Full(num)
    ensures |b[k]| <= |a[k]|
  {
    hide Timely;
    if |a[k]| < |b[k]| {
      ShorterEnds(num, inputs, a, b, k);
      var j: nat :| k <= j < |b| && End(b, j) == End(a, k);
      EndsInOrder(b, k, j);
      FlatNext(a, k);
      FlatNext(b, k);
    }
  }

  lemma SameChunk(a: seq<seq<Item>>, ra: seq<Item>, b: seq<seq<Item>>, rb: seq<Item>, k: nat)
    requires Flat(a) + ra == Flat(b) + rb && k < |a| && k < |b|
    requires a[..k] == b[..k] && |a[k]| == |b[k]|
    ensures a[k] == b[k] && a[..k + 1] == b[..k + 1]
  {
    hide Flat;
    FlatPrefix(a, k + 1);
    FlatPrefix(b, k + 1);
    FlatNext(a, k);
    FlatNext(b, k);
    SameNext(Flat(a) + ra, Flat(a[..k]), a[k], b[k]);
    assert a[..k + 1] == a[..k] + [a[k]] && b[..k + 1] == b[..k] + [b[k]];
  }

  lemma SameNext(x: seq<Item>, front: seq<Item>, c: seq<Item>, d: seq<Item>)
    requires front + c <= x && front + d <= x && |c| == |d|
    ensures c == d
  {
    assert c == (front + c)[|front|..] == x[|front|..|front| + |c|];
    assert d == (front + d)[|front|..] == x[|front|..|front| + |d|];
  }

  lemma {:induction false} SamePrefix(num: int, inputs: seq<Input>, a: seq<seq<Item>>, ra: seq<Item>,
                                      b: seq<seq<Item>>, rb: seq<Item>, k: nat)
    requires Timely(num, inputs, a) && Timely(num, inputs, b) && Flat(a) + ra == Flat(b) + rb
    requires forall i: nat :: i < |a| ==> 1 <= |a[i]| <= Full(num)
    requires forall i: nat :: i < |b| ==> 1 <= |b[i]| <= Full(num)
    requires k <= |a| && k <= |b|
    ensures a[..k] == b[..k]
  {
    hide Timely, Flat;
    if k > 0 {
      SamePrefix(num, inputs, a, ra, b, rb, k - 1);
      NotLonger(num, inputs, a, b, k - 1);
      NotLonger(num, inputs, b, a, k - 1);
      SameChunk(a, ra, b, rb, k - 1);
    }
  }

  // A cut that has all the chunks of another has no more.
  lemma NoMoreChunks(num: int, inputs: seq<Input>, a: seq<seq<Item>>, ra: seq<Item>, b: seq<seq<Item>>, rb: seq<Item>)
    requires Timely(num, inputs, a) && Timely(num, inputs, b) && Flat(a) + ra == Flat(b) + rb
    requires forall i: nat :: i < |b| ==> 1 <= |b[i]| <= Full(num)
    requires (ra == [] || |ra| < num) && |a| <= |b| && a == b[..|a|]
    ensures |a| == |b|
  {
    hide Timely, Flat;
    var k := |a|;
    if k < |b| {
      FlatNext(b, k);
      FlatPrefix(b, k + 1);
      assert |b[k]| <= |ra|;
      assert a[..k] == a;
      ShorterEnds(num, inputs, b, a, k);
    }
  }

  // What a worker promises leaves one answer: the calls of exec, their contents and what is
  // pending are determined by the inputs.
  lemma ServesIsExact(num: int, inputs: seq<Input>, execs: seq<Messages>, msg: Messages, returned: bool,
                      execs': seq<Messages>, msg': Messages, returned': bool)
    requires exists chunks, rest :: Serves(num, inputs, execs, msg, returned, chunks, rest)
    requires exists chunks, rest :: Serves(num, inputs, execs', msg', returned', chunks, rest)
    ensures execs == execs' && msg == msg' && returned == returned'
  {
    var a, ra :| Serves(num, inputs, execs, msg, returned, a, ra);
    var b, rb :| Serves(num, inputs, execs', msg', returned', b, rb);
    SameCut(num, inputs, a, ra, b, rb);
  }

  lemma SameCut(num: int, inputs: seq<Input>, a: seq<seq<Item>>, ra: seq<Item>, b: seq<seq<Item>>, rb: seq<Item>)
    requires Timely(num, inputs, a) && Timely(num, inputs, b) && Flat(a) + ra == Flat(b) + rb
    requires forall i: nat :: i < |a| ==> 1 <= |a[i]| <= Full(num)
    requires forall i: nat :: i < |b| ==> 1 <= |b[i]| <= Full(num)
    requires (ra == [] || |ra| < num) && (rb == [] || |rb| < num)
    ensures a == b && ra == rb
  {
    hide Timely, Flat;
    var k := if |a| <= |b| then |a| else |b|;
    SamePrefix(num, inputs, a, ra, b, rb, k);
    assert a[..|a|] == a && b[..|b|] == b;
    if |a| <= |b| {
      NoMoreChunks(num, inputs, a, ra, b, rb);
    } else {
      NoMoreChunks(num, inputs, b, rb, a, ra);
    }
    SameNext(Flat(a) + ra, Flat(a), ra, rb);
  }

  // ---------- the observable consequences ----------

  // The values of one key in the calls of exec, in the order of the calls.
  function Delivered(execs: seq<Messages>, key: string): (r: seq<int>) {
    if execs == [] then []
    else Delivered(execs[..|execs| - 1], key) + Get(execs[|execs| - 1], key)
  }

  lemma {:induction false} DeliveredOf(chunks: seq<seq<Item>>, key: string)
    ensures Delivered(Groups(chunks), key) == Values(Flat(chunks), key)
  {
    if chunks != [] {
      var n := |chunks| - 1;
      DeliveredOf(chunks[..n], key);
      assert Groups(chunks)[..n] == Groups(chunks[..n]);
      GroupIsExact(chunks[n], key);
      ValuesAppend(Flat(chunks[..n]), chunks[n], key);
    }
  }

  // Per key, what exec was given followed by what is pending is what was received.
  lemma WorkerFifo(num: int, adjust: bool, inputs: seq<Input>, key: string)
    ensures var l := Turns(num, START.(adjust := adjust), inputs);
            Delivered(l.execs, key) + Get(l.msg, key) == Values(Received(inputs), key)
  {
    hide Turns, Received;
    var chunks, rest := WorkerCuts(num, adjust, inputs);
    DeliveredOf(chunks, key);
    GroupIsExact(rest, key);
    ValuesAppend(Flat(chunks), rest, key);
  }

  // A worker has returned exactly when it received the sentinel, and then has nothing pending.
  lemma {:induction false} WorkerReturns(num: int, adjust: bool, inputs: seq<Input>)
    ensures var l := Turns(num, START.(adjust := adjust), inputs);
            (l.returned <==> Stopped(inputs)) && (l.returned ==> l.msg == map[])
  {
    hide Turns, Received;
    var chunks, rest := WorkerCuts(num, adjust, inputs);
  }

  // A tick leaves nothing pending: exec was given all that was received.
  lemma TickFlushes(num: int, adjust: bool, inputs: seq<Input>, key: string)
    requires inputs != [] && inputs[|inputs| - 1] == FromTicker
    ensures var l := Turns(num, START.(adjust := adjust), inputs);
            l.msg == map[] && Delivered(l.execs, key) == Values(Received(inputs), key)
  {
    hide Received, Delivered, Values;
    var n := |inputs| - 1;
    WorkerReturns(num, adjust, inputs[..n]);
    WorkerFifo(num, adjust, inputs, key);
  }

  lemma ExecSizes(num: int, adjust: bool, inputs: seq<Input>, i: nat)
    requires i < |Turns(num, START.(adjust := adjust), inputs).execs|
    ensures var call := Turns(num, START.(adjust := adjust), inputs).execs[i];
            1 <= Size(call) && (Size(call) <= num || Size(call) == 1)
  {
    hide Turns, Received;
    var chunks, rest := WorkerCuts(num, adjust, inputs);
    GroupSize(chunks[i]);
  }
}
