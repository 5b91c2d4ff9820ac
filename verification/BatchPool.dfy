// The batch pool as a protocol: Batch.Add, Batch.Stop and the workers of
// pkg/future/batch.go, interleaved in any order.
//
// One event is one atomic action: a non-blocking send by Add, a receive or a tick of one
// worker, the send of one nil sentinel by Stop, the end of Stop's wait.
module BatchPool {
  import opened Wrappers
  import opened BatchWorker
  import opened Sums

  // sharding returns non-negative numbers, worker and size are positive.
  datatype Config = Config(num: int, size: int, workers: int, sharding: string -> nat) {
    ghost predicate Valid() { size >= 1 && workers >= 1 }

    function Shard(key: string): (w: nat)
      requires workers >= 1
      ensures w < workers
    {
      sharding(key) % workers
    }
  }

  // A channel with everything ever sent to it, and the select outcomes of its worker.
  datatype Worker = Worker(queue: seq<Option<Item>>, sent: seq<Option<Item>>, inputs: seq<Input>, local: Local)

  datatype Phase = Running | Sending(next: nat) | Done

  // `log` lists the items Add accepted, over all workers.
  datatype Pool = Pool(ws: seq<Worker>, phase: Phase, log: seq<Item>)

  datatype Event =
    | Add(item: Item)
    | Recv(w: nat)
    | Tick(w: nat)
    | BeginStop
    | SendNil
    | WaitDone

  function Fresh(c: Config): (r: Pool)
    requires c.Valid()
  {
    Pool(seq(c.workers, i requires i >= 0 => Worker([], [], [], START.(adjust := i > 0))), Running, [])
  }

  predicate Enabled(c: Config, s: Pool, e: Event) {
    match e
    case Add(_) => true
    case Recv(w) => w < |s.ws| && !s.ws[w].local.returned && s.ws[w].queue != []
    case Tick(w) => w < |s.ws| && !s.ws[w].local.returned
    case BeginStop => s.phase == Running
    case SendNil => s.phase.Sending? && s.phase.next < |s.ws| && |s.ws[s.phase.next].queue| < c.size
    case WaitDone => s.phase == Sending(|s.ws|) && forall w :: 0 <= w < |s.ws| ==> s.ws[w].local.returned
  }

  function Sent(w: Worker, x: Option<Item>): (r: Worker) {
    w.(queue := w.queue + [x], sent := w.sent + [x])
  }

  function Took(c: Config, w: Worker, input: Input): (r: Worker) {
    w.(inputs := w.inputs + [input], local := Turn(c.num, w.local, input))
  }

  // Add reports an error and changes nothing when the channel is full.
  predicate Accepts(c: Config, s: Pool, item: Item)
    requires c.Valid() && |s.ws| == c.workers
  {
    |s.ws[c.Shard(item.key)].queue| < c.size
  }

  function Next(c: Config, s: Pool, e: Event): (s': Pool)
    requires c.Valid() && |s.ws| == c.workers && Enabled(c, s, e)
    ensures |s'.ws| == c.workers
  {
    match e
    case Add(item) =>
      if Accepts(c, s, item) then
        var w := c.Shard(item.key);
        s.(ws := s.ws[w := Sent(s.ws[w], Some(item))], log := s.log + [item])
      else s
    case Recv(w) =>
      var x := s.ws[w];
      s.(ws := s.ws[w := Took(c, x.(queue := x.queue[1..]), FromChannel(x.queue[0]))])
    case Tick(w) => s.(ws := s.ws[w := Took(c, s.ws[w], FromTicker)])
    case BeginStop => s.(phase := Sending(0))
    case SendNil =>
      var i := s.phase.next;
      s.(ws := s.ws[i := Sent(s.ws[i], None)], phase := Sending(i + 1))
    case WaitDone => s.(phase := Done)
  }

  // The state after a sequence of events, if each of them was enabled in its turn.
  function Run(c: Config, s: Pool, es: seq<Event>): (r: Option<Pool>)
    requires c.Valid() && |s.ws| == c.workers
    ensures r.Some? ==> |r.value.ws| == c.workers
  {
    if es == [] then Some(s)
    else
      var n := |es| - 1;
      match Run(c, s, es[..n])
      case None => None
      case Some(mid) => if Enabled(c, mid, es[n]) then Some(Next(c, mid, es[n])) else None
  }

  // s leads to s' by the events.
  predicate Leads(c: Config, s: Pool, es: seq<Event>, s': Pool)
    requires c.Valid() && |s.ws| == c.workers
  {
    Run(c, s, es) == Some(s')
  }

  // ---------- the invariant of one worker ----------

  // The items sent ahead of the first sentinel.
  function Ahead(sent: seq<Option<Item>>): (r: seq<Item>) {
    if sent == [] then []
    else
      var n := |sent| - 1;
      if sent[n].Some? && None !in sent[..n] then Ahead(sent[..n]) + [sent[n].value] else Ahead(sent[..n])
  }

  // All items sent.
  function Items(sent: seq<Option<Item>>): (r: seq<Item>) {
    if sent == [] then []
    else
      var n := |sent| - 1;
      if sent[n].Some? then Items(sent[..n]) + [sent[n].value] else Items(sent[..n])
  }

  // The receives among the outcomes of the select statement.
  function Taken(inputs: seq<Input>): (r: seq<Option<Item>>) {
    if inputs == [] then []
    else
      var n := |inputs| - 1;
      if inputs[n].FromChannel? then Taken(inputs[..n]) + [inputs[n].item] else Taken(inputs[..n])
  }

  ghost predicate WorkerOk(c: Config, w: Worker, index: nat) {
    && w.sent == Taken(w.inputs) + w.queue
    && |w.queue| <= c.size
    && w.local == Turns(c.num, START.(adjust := index > 0), w.inputs)
    && w.local.returned == Stopped(w.inputs)
    && (w.local.returned ==> Received(w.inputs) == Ahead(w.sent))
    && Received(w.inputs) == Items(Taken(w.inputs))
  }

  lemma {:induction false} ItemsAppend(a: seq<Option<Item>>, b: seq<Option<Item>>)
    ensures Items(a + b) == Items(a) + Items(b)
  {
    if b == [] {
      assert a + b == a;
    } else {
      var n := |b| - 1;
      ItemsAppend(a, b[..n]);
      assert (a + b)[..|a| + n] == a + b[..n];
    }
  }

  lemma {:induction false} AheadNone(a: seq<Option<Item>>)
    requires None !in a
    ensures Ahead(a) == Items(a)
  {
    if a != [] {
      AheadNone(a[..|a| - 1]);
    }
  }

  // Nothing sent behind a sentinel is ahead of it.
  lemma {:induction false} AheadBehind(a: seq<Option<Item>>, b: seq<Option<Item>>)
    requires None in a
    ensures Ahead(a + b) == Ahead(a)
  {
    if b == [] {
      assert a + b == a;
    } else {
      var n := |b| - 1;
      AheadBehind(a, b[..n]);
      assert (a + b)[..|a| + n] == a + b[..n];
    }
  }

  lemma {:induction false} TakenStopped(inputs: seq<Input>)
    ensures Stopped(inputs) <==> None in Taken(inputs)
  {
    if inputs != [] {
      var n := |inputs| - 1;
      TakenStopped(inputs[..n]);
      assert inputs == inputs[..n] + [inputs[n]];
    }
  }

  lemma SentKeepsWorkerOk(c: Config, w: Worker, index: nat, x: Option<Item>)
    requires WorkerOk(c, w, index) && |w.queue| < c.size
    ensures WorkerOk(c, Sent(w, x), index)
  {
    hide Turns, Received, Taken, Ahead, Stopped;
    assert Taken(w.inputs) + (w.queue + [x]) == w.sent + [x];
    if w.local.returned {
      TakenStopped(w.inputs);
      assert None in w.sent;
      AheadBehind(w.sent, [x]);
    }
  }

  lemma TakenOne(inputs: seq<Input>, input: Input)
    ensures Taken(inputs + [input]) == if input.FromChannel? then Taken(inputs) + [input.item] else Taken(inputs)
  {
    assert (inputs + [input])[..|inputs|] == inputs;
  }

  lemma TurnsMore(num: int, start: Local, inputs: seq<Input>, input: Input)
    ensures Turns(num, start, inputs + [input]) == Turn(num, Turns(num, start, inputs), input)
  {
    assert (inputs + [input])[..|inputs|] == inputs;
  }

  lemma TickKeepsWorkerOk(c: Config, w: Worker, index: nat)
    requires WorkerOk(c, w, index) && !w.local.returned
    ensures WorkerOk(c, Took(c, w, FromTicker), index)
  {
    hide Turns, Received, Taken, Ahead, Stopped, Items;
    TakenOne(w.inputs, FromTicker);
    TurnsMore(c.num, START.(adjust := index > 0), w.inputs, FromTicker);
    ReceivedOne(w.inputs, FromTicker);
  }

  lemma RecvKeepsWorkerOk(c: Config, w: Worker, index: nat)
    requires WorkerOk(c, w, index) && !w.local.returned && w.queue != []
    ensures WorkerOk(c, Took(c, w.(queue := w.queue[1..]), FromChannel(w.queue[0])), index)
  {
    hide Turns, Received, Taken, Ahead, Stopped, Items;
    var x := w.queue[0];
    var taken := Taken(w.inputs);
    TakenOne(w.inputs, FromChannel(x));
    TurnsMore(c.num, START.(adjust := index > 0), w.inputs, FromChannel(x));
    ReceivedOne(w.inputs, FromChannel(x));
    assert w.sent == (taken + [x]) + w.queue[1..];
    ItemsLast(taken, x);
    if x == None {
      TakenStopped(w.inputs);
      AheadLast(taken);
      AheadNone(taken);
      AheadBehind(taken + [x], w.queue[1..]);
    }
    TurnReturns(c.num, w.local, x);
  }

  lemma TurnReturns(num: int, l: Local, x: Option<Item>)
    requires !l.returned
    ensures Turn(num, l, FromChannel(x)).returned <==> x == None
  {
  }

  lemma ItemsLast(a: seq<Option<Item>>, x: Option<Item>)
    ensures Items(a + [x]) == if x.Some? then Items(a) + [x.value] else Items(a)
  {
    assert (a + [x])[..|a|] == a;
  }

  lemma AheadLast(a: seq<Option<Item>>)
    ensures Ahead(a + [None]) == Ahead(a)
  {
    assert (a + [None])[..|a|] == a;
  }

  // ---------- the invariant of the pool ----------

  // Only items of a worker's own keys are in its channel, and exactly the accepted ones.
  ghost predicate Sharded(c: Config, w: Worker, index: nat, log: seq<Item>)
    requires c.Valid()
  {
    forall key :: Values(Items(w.sent), key) == if c.Shard(key) == index then Values(log, key) else []
  }

  // Stop has sent exactly the sentinels of the workers before `next`.
  function Sentinels(s: Pool): (r: nat) {
    match s.phase
    case Running => 0
    case Sending(next) => next
    case Done => |s.ws|
  }

  ghost predicate Ok(c: Config, s: Pool)
    requires c.Valid()
  {
    && |s.ws| == c.workers
    && Sentinels(s) <= |s.ws|
    && (forall i: nat :: i < |s.ws| ==> WorkerOk(c, s.ws[i], i))
    && (forall i: nat :: i < |s.ws| ==> Sharded(c, s.ws[i], i, s.log))
    && (forall i: nat :: i < |s.ws| ==> (None in s.ws[i].sent <==> i < Sentinels(s)))
    && (s.phase == Done ==> forall i: nat :: i < |s.ws| ==> s.ws[i].local.returned)
  }

  lemma FreshOk(c: Config)
    requires c.Valid()
    ensures Ok(c, Fresh(c))
  {
  }

  lemma AddOk(c: Config, s: Pool, item: Item)
    requires c.Valid() && Ok(c, s)
    ensures Ok(c, Next(c, s, Add(item)))
  {
    hide WorkerOk, Items, Sharded;
    if Accepts(c, s, item) {
      var s' := Next(c, s, Add(item));
      var w := c.Shard(item.key);
      SentKeepsWorkerOk(c, s.ws[w], w, Some(item));
      forall i: nat | i < |s.ws| ensures Sharded(c, s'.ws[i], i, s'.log) {
        AddSharded(c, s.ws[i], i, s.log, item);
      }
    }
  }

  // One more item in the log and, for the worker of its key, in the channel.
  lemma AddSharded(c: Config, w: Worker, index: nat, log: seq<Item>, item: Item)
    requires c.Valid() && Sharded(c, w, index, log)
    ensures Sharded(c, if c.Shard(item.key) == index then Sent(w, Some(item)) else w, index, log + [item])
  {
    hide Items, Values;
    ItemsLast(w.sent, Some(item));
    forall key
      ensures Values(log + [item], key) == Values(log, key) + Values([item], key)
      ensures Values(Items(w.sent) + [item], key) == Values(Items(w.sent), key) + Values([item], key)
      ensures key != item.key ==> Values([item], key) == []
    {
      ValuesAppend(log, [item], key);
      ValuesAppend(Items(w.sent), [item], key);
      ValuesOne(item, key);
    }
  }

  lemma ValuesOne(item: Item, key: string)
    ensures Values([item], key) == if item.key == key then [item.value] else []
  {
    assert [item][..0] == [];
  }

  lemma WorkerStepOk(c: Config, s: Pool, e: Event)
    requires c.Valid() && Ok(c, s) && (e.Recv? || e.Tick?) && Enabled(c, s, e)
    ensures Ok(c, Next(c, s, e))
  {
    hide WorkerOk, Sharded;
    if e.Recv? {
      RecvKeepsWorkerOk(c, s.ws[e.w], e.w);
    } else {
      TickKeepsWorkerOk(c, s.ws[e.w], e.w);
    }
    var s' := Next(c, s, e);
    forall i: nat | i < |s.ws| ensures Sharded(c, s'.ws[i], i, s'.log) {
      SameShards(c, s.ws[i], s'.ws[i], i, s.log);
    }
  }

  lemma SameShards(c: Config, w: Worker, w': Worker, index: nat, log: seq<Item>)
    requires c.Valid() && Sharded(c, w, index, log) && w'.sent == w.sent
    ensures Sharded(c, w', index, log)
  {
  }

  lemma StopStepOk(c: Config, s: Pool, e: Event)
    requires c.Valid() && Ok(c, s) && (e.BeginStop? || e.SendNil? || e.WaitDone?) && Enabled(c, s, e)
    ensures Ok(c, Next(c, s, e))
  {
    hide WorkerOk;
    if e.SendNil? {
      var i := s.phase.next;
      SentKeepsWorkerOk(c, s.ws[i], i, None);
      ItemsLast(s.ws[i].sent, None);
    }
  }

  // Every event keeps the invariant, so every run does.
  lemma {:induction false} RunKeepsOk(c: Config, s: Pool, es: seq<Event>, s': Pool)
    requires c.Valid() && Ok(c, s) && Leads(c, s, es, s')
    ensures Ok(c, s')
  {
    hide Ok;
    if es != [] {
      var n := |es| - 1;
      assert |s.ws| == c.workers by { OkSize(c, s); }
      var mid := Run(c, s, es[..n]).value;
      RunKeepsOk(c, s, es[..n], mid);
      match es[n]
      case Add(item) => AddOk(c, mid, item);
      case Recv(_) => WorkerStepOk(c, mid, es[n]);
      case Tick(_) => WorkerStepOk(c, mid, es[n]);
      case BeginStop => StopStepOk(c, mid, es[n]);
      case SendNil => StopStepOk(c, mid, es[n]);
      case WaitDone => StopStepOk(c, mid, es[n]);
    }
  }

  lemma OkSize(c: Config, s: Pool)
    requires c.Valid() && Ok(c, s)
    ensures |s.ws| == c.workers
  {
  }

  // ---------- per-key first-in first-out ----------

  // In every reachable state and for every key: the values given to exec, then the values
  // pending in the worker, then the values queued, are the values Add accepted, in order.
  // Items behind the sentinel of a worker that returned are neither delivered nor queued
  // ahead of it: they stay in the channel.
  lemma PerKeyFifo(c: Config, es: seq<Event>, s: Pool, key: string)
    requires c.Valid() && Leads(c, Fresh(c), es, s)
    ensures |s.ws| == c.workers
    ensures var w := s.ws[c.Shard(key)];
            Delivered(w.local.execs, key) + Get(w.local.msg, key) + Values(Items(w.queue), key) == Values(s.log, key)
    ensures forall i: nat :: i < |s.ws| && i != c.Shard(key) ==>
              Delivered(s.ws[i].local.execs, key) == [] && Get(s.ws[i].local.msg, key) == []
  {
    hide Leads, WorkerOk;
    FreshOk(c);
    RunKeepsOk(c, Fresh(c), es, s);
    forall i: nat | i < |s.ws|
      ensures Delivered(s.ws[i].local.execs, key) + Get(s.ws[i].local.msg, key) + Values(Items(s.ws[i].queue), key)
              == if c.Shard(key) == i then Values(s.log, key) else []
    {
      WorkerAccounts(c, s.ws[i], i, key);
      assert Values(Items(s.ws[i].sent), key) == if c.Shard(key) == i then Values(s.log, key) else [];
    }
  }

  // The account of one worker holds whether or not it has returned.
  lemma WorkerAccounts(c: Config, w: Worker, index: nat, key: string)
    requires WorkerOk(c, w, index)
    ensures Delivered(w.local.execs, key) + Get(w.local.msg, key) + Values(Items(w.queue), key) == Values(Items(w.sent), key)
  {
    hide Turns, Received, Taken, Ahead, Stopped, Items;
    WorkerFifo(c.num, index > 0, w.inputs, key);
    ItemsAppend(Taken(w.inputs), w.queue);
    ValuesAppend(Items(Taken(w.inputs)), Items(w.queue), key);
  }

  function Queues(s: Pool): (r: seq<seq<Option<Item>>>)
    ensures |r| == |s.ws|
  {
    seq(|s.ws|, i requires 0 <= i < |s.ws| => s.ws[i].queue)
  }

  /** The producer's side of the pool: the channels, and the pool they belong to. */
  class Batch {
    const c: Config
    var chs: seq<seq<Option<Item>>>
    ghost var pool: Pool

    ghost predicate Valid()
      reads this
    {
      c.Valid() && Ok(c, pool) && chs == Queues(pool)
    }

    constructor (c: Config)
      requires c.Valid()
      ensures Valid() && this.c == c && pool == Fresh(c)
    {
      this.c := c;
      chs := seq(c.workers, i => []);
      pool := Fresh(c);
      new;
      FreshOk(c);
    }

    // A full channel is an error and changes nothing; otherwise the item is the next of its
    // key.
    method Add(key: string, value: int) returns (ok: bool)
      requires Valid()
      modifies this
      ensures Valid() && pool == Next(c, old(pool), Event.Add(Item(key, value)))
      ensures pool.log == if ok then old(pool.log) + [Item(key, value)] else old(pool.log)
      ensures !ok ==> chs == old(chs) && pool == old(pool)
      ensures var w := c.sharding(key) % c.workers;
              && 0 <= w < |old(chs)|
              && (ok <==> |old(chs)[w]| < c.size)
              && (ok ==> chs == old(chs)[w := old(chs)[w] + [Some(Item(key, value))]])
    {
      hide Ok;
      assert |pool.ws| == c.workers by { OkSize(c, pool); }
      ghost var item := Item(key, value);
      AddOk(c, pool, item);
      var w := c.sharding(key) % c.workers;
      if |chs[w]| < c.size {
        chs := chs[w := chs[w] + [Some(Item(key, value))]];
        ok := true;
      } else {
        ok := false;
      }
      pool := Next(c, pool, Event.Add(item));
      assert chs == Queues(pool);
    }
  }

  // ---------- ticks ----------

  // Until its worker has returned a tick can happen in every reachable state, and it leaves
  // nothing pending: for every key of the worker, what exec was given, then what is queued,
  // is what was accepted.
  lemma TickDelivers(c: Config, es: seq<Event>, s: Pool, w: nat, key: string)
    requires c.Valid() && Leads(c, Fresh(c), es, s)
    requires w < |s.ws| && !s.ws[w].local.returned
    ensures |s.ws| == c.workers && Enabled(c, s, Tick(w))
    ensures var s' := Next(c, s, Tick(w));
            && s'.log == s.log
            && s'.ws[w].local.msg == map[]
            && Delivered(s'.ws[w].local.execs, key) + Values(Items(s'.ws[w].queue), key)
               == if c.sharding(key) % c.workers == w then Values(s.log, key) else []
  {
    hide Ok, WorkerOk, Turns, Turn, Delivered, Values, Items;
    FreshOk(c);
    RunKeepsOk(c, Fresh(c), es, s);
    OkSize(c, s);
    WorkerStepOk(c, s, Tick(w));
    var s' := Next(c, s, Tick(w));
    OkWorker(c, s', w);
    WorkerAccounts(c, s'.ws[w], w, key);
    TickedWorker(c, s', w, key);
  }

  lemma OkWorker(c: Config, s: Pool, w: nat)
    requires c.Valid() && Ok(c, s) && w < |s.ws|
    ensures WorkerOk(c, s.ws[w], w) && Sharded(c, s.ws[w], w, s.log)
    ensures s.ws[w].local.returned ==> None in s.ws[w].sent
  {
    hide Turns, Received, Ahead, Items, Taken;
    TakenStopped(s.ws[w].inputs);
  }

  lemma TickedWorker(c: Config, s: Pool, w: nat, key: string)
    requires c.Valid() && w < |s.ws| && WorkerOk(c, s.ws[w], w) && Sharded(c, s.ws[w], w, s.log)
    requires s.ws[w].inputs != [] && s.ws[w].inputs[|s.ws[w].inputs| - 1] == FromTicker
    ensures s.ws[w].local.msg == map[]
    ensures Values(Items(s.ws[w].sent), key) == if c.sharding(key) % c.workers == w then Values(s.log, key) else []
  {
    hide Turns, Received, Taken, Ahead, Stopped, Items, Delivered;
    TickFlushes(c.num, w > 0, s.ws[w].inputs, key);
  }

  // Stop is not needed for delivery: from every reachable state, as long as no sentinel was
  // sent to a worker, its own receives and one tick bring all that was accepted for its keys
  // to exec.
  lemma EventuallyDelivered(c: Config, past: seq<Event>, s: Pool, w: nat) returns (es: seq<Event>, s': Pool)
    requires c.Valid() && Leads(c, Fresh(c), past, s)
    requires w < |s.ws| && None !in s.ws[w].sent
    ensures |s.ws| == |s'.ws| == c.workers && Leads(c, s, es, s') && s'.log == s.log
    ensures forall e :: e in es ==> e == Recv(w) || e == Tick(w)
    ensures forall key :: c.sharding(key) % c.workers == w ==>
              Delivered(s'.ws[w].local.execs, key) == Values(s.log, key)
  {
    hide Ok, Leads;
    FreshOk(c);
    RunKeepsOk(c, Fresh(c), past, s);
    OkSize(c, s);
    RunNone(c, s);
    es, s' := Drained(c, s, w, [], s);
  }

  lemma {:induction false} Drained(c: Config, s: Pool, w: nat, done: seq<Event>, mid: Pool)
    returns (es: seq<Event>, s': Pool)
    requires c.Valid() && |s.ws| == c.workers && Leads(c, s, done, mid) && Ok(c, mid)
    requires w < |mid.ws| && None !in mid.ws[w].sent
    requires forall e :: e in done ==> e == Recv(w) || e == Tick(w)
    ensures |s'.ws| == c.workers && Leads(c, s, es, s') && s'.log == mid.log
    ensures forall e :: e in es ==> e == Recv(w) || e == Tick(w)
    ensures forall key :: c.sharding(key) % c.workers == w ==>
              Delivered(s'.ws[w].local.execs, key) == Values(mid.log, key)
    decreases |mid.ws[w].queue|
  {
    hide Ok, Leads, WorkerOk, Sharded, Turn, Delivered, Values, Items;
    OkSize(c, mid);
    OkWorker(c, mid, w);
    var e := if mid.ws[w].queue == [] then Tick(w) else Recv(w);
    var next := Next(c, mid, e);
    RunOne(c, s, done, mid, e);
    WorkerStepOk(c, mid, e);
    if e.Recv? {
      es, s' := Drained(c, s, w, done + [e], next);
    } else {
      es, s' := done + [e], next;
      OkWorker(c, next, w);
      forall key | c.sharding(key) % c.workers == w
        ensures Delivered(next.ws[w].local.execs, key) == Values(mid.log, key)
      {
        WorkerAccounts(c, next.ws[w], w, key);
        TickedWorker(c, next, w, key);
        NothingQueued(key);
      }
    }
  }

  lemma NothingQueued(key: string)
    ensures Values(Items([]), key) == [] && Get(map[], key) == []
  {
  }

  lemma RunNone(c: Config, s: Pool)
    requires c.Valid() && |s.ws| == c.workers
    ensures Leads(c, s, [], s)
  {
  }

  lemma RunOne(c: Config, s: Pool, es: seq<Event>, mid: Pool, e: Event)
    requires c.Valid() && |s.ws| == c.workers && Leads(c, s, es, mid)
    requires |mid.ws| == c.workers && Enabled(c, mid, e)
    ensures Leads(c, s, es + [e], Next(c, mid, e))
  {
    assert (es + [e])[..|es|] == es;
  }

  // ---------- draining ----------

  // Once Stop has returned, what exec was given for a key is exactly what was accepted for
  // it ahead of the worker's sentinel, and that is a prefix of everything accepted for it.
  lemma StopDrains(c: Config, es: seq<Event>, s: Pool, key: string)
    requires c.Valid() && Leads(c, Fresh(c), es, s) && s.phase == Done
    ensures |s.ws| == c.workers
    ensures var w := s.ws[c.Shard(key)];
            && Delivered(w.local.execs, key) == Values(Ahead(w.sent), key)
            && Delivered(w.local.execs, key) <= Values(s.log, key)
            && w.local.msg == map[]
  {
    hide Leads, Turns, Taken, Ahead, Stopped, Items, Received;
    FreshOk(c);
    RunKeepsOk(c, Fresh(c), es, s);
    PerKeyFifo(c, es, s, key);
    var i := c.Shard(key);
    WorkerFifo(c.num, i > 0, s.ws[i].inputs, key);
    WorkerReturns(c.num, i > 0, s.ws[i].inputs);
  }

  // Every call of exec of a run holds between 1 and num items (1 when num is smaller).
  lemma ExecSizesInRun(c: Config, es: seq<Event>, s: Pool, w: nat, i: nat)
    requires c.Valid() && Leads(c, Fresh(c), es, s)
    requires w < |s.ws| && i < |s.ws[w].local.execs|
    ensures var n := Size(s.ws[w].local.execs[i]); 1 <= n && (n <= c.num || n == 1)
  {
    hide Leads, Turns, Taken, Ahead, Stopped, Items, Received, Size;
    FreshOk(c);
    RunKeepsOk(c, Fresh(c), es, s);
    ExecSizes(c.num, w > 0, s.ws[w].inputs, i);
  }

  // ---------- Stop comes to an end ----------

  function QueueLengths(s: Pool): (r: seq<int>)
    ensures |r| == |s.ws|
  {
    seq(|s.ws|, i requires 0 <= i < |s.ws| => |s.ws[i].queue|)
  }

  // Two for each sentinel not sent yet, one for each entry queued, one for the wait.
  ghost function Measure(s: Pool): (r: int) {
    2 * (|s.ws| - Sentinels(s)) + Sum(QueueLengths(s)) + (if s.phase == Done then 0 else 1)
  }

  predicate Progress(e: Event) { e.Recv? || e.SendNil? || e.WaitDone? }

  lemma OneQueueChanges(s: Pool, w: nat, x: Worker)
    requires w < |s.ws|
    ensures var s' := s.(ws := s.ws[w := x]);
            Sum(QueueLengths(s')) == Sum(QueueLengths(s)) - |s.ws[w].queue| + |x.queue|
  {
    SumUpdate(QueueLengths(s), w, |x.queue|);
    assert QueueLengths(s.(ws := s.ws[w := x])) == QueueLengths(s)[w := |x.queue|];
  }

  lemma QueueLengthsOnly(s: Pool, s': Pool)
    requires s.ws == s'.ws
    ensures QueueLengths(s) == QueueLengths(s')
  {
  }

  // While Stop is under way every receive, send or end of the wait decreases the measure
  // and a tick leaves it unchanged.
  lemma MeasureDecreases(c: Config, s: Pool, e: Event)
    requires c.Valid() && Ok(c, s) && s.phase.Sending? && Enabled(c, s, e) && !e.Add?
    ensures Progress(e) ==> Measure(Next(c, s, e)) < Measure(s)
    ensures e.Tick? ==> Measure(Next(c, s, e)) == Measure(s)
    ensures Progress(e) || e.Tick?
    ensures !Next(c, s, e).phase.Running?
  {
    hide WorkerOk, Sharded, Turn, Sum, QueueLengths;
    var s' := Next(c, s, e);
    match e
    case Recv(w) =>
      OneQueueChanges(s, w, s'.ws[w]);
    case Tick(w) =>
      OneQueueChanges(s, w, s'.ws[w]);
    case SendNil =>
      var i := s.phase.next;
      OneQueueChanges(s, i, s'.ws[i]);
      QueueLengthsOnly(s', s.(ws := s.ws[i := s'.ws[i]]));
    case WaitDone =>
      QueueLengthsOnly(s, s');
  }

  lemma MeasureNonNegative(c: Config, s: Pool)
    requires c.Valid() && Ok(c, s)
    ensures Measure(s) >= 0
  {
    SumAtLeast(QueueLengths(s), 0);
  }

  // Until Stop returns some receive, send or end of the wait is always enabled:
  // Stop and the workers cannot deadlock.
  lemma AlwaysProgress(c: Config, s: Pool) returns (e: Event)
    requires c.Valid() && Ok(c, s) && s.phase.Sending?
    ensures Progress(e) && Enabled(c, s, e)
  {
    hide Turns, Taken, Ahead, Items, Received, Sharded;
    var i := s.phase.next;
    if i < |s.ws| {
      if |s.ws[i].queue| < c.size {
        e := SendNil;
      } else {
        ReturnedHadSentinel(c, s.ws[i], i);
        e := Recv(i);
      }
    } else if exists w: nat :: w < |s.ws| && !s.ws[w].local.returned {
      var w: nat :| w < |s.ws| && !s.ws[w].local.returned;
      WaitingHasSentinel(c, s.ws[w], w);
      e := Recv(w);
    } else {
      e := WaitDone;
    }
  }

  lemma ReturnedHadSentinel(c: Config, w: Worker, index: nat)
    requires WorkerOk(c, w, index) && None !in w.sent
    ensures !w.local.returned
  {
    TakenStopped(w.inputs);
  }

  lemma WaitingHasSentinel(c: Config, w: Worker, index: nat)
    requires WorkerOk(c, w, index) && None in w.sent && !w.local.returned
    ensures w.queue != []
  {
    TakenStopped(w.inputs);
  }

  function ProgressCount(es: seq<Event>): (r: nat) {
    if es == [] then 0
    else ProgressCount(es[..|es| - 1]) + (if Progress(es[|es| - 1]) then 1 else 0)
  }

  ghost predicate NoAdds(es: seq<Event>) {
    forall i :: 0 <= i < |es| ==> !es[i].Add?
  }

  // Hence, without further Adds, a run of Stop takes at most Measure steps besides ticks.
  lemma {:induction false} StopIsBounded(c: Config, s: Pool, es: seq<Event>, s': Pool)
    requires c.Valid() && Ok(c, s) && !s.phase.Running? && NoAdds(es) && Leads(c, s, es, s')
    ensures Ok(c, s') && !s'.phase.Running?
    ensures ProgressCount(es) + Measure(s') <= Measure(s)
    ensures ProgressCount(es) <= Measure(s)
  {
    hide Ok, Measure, Enabled, Next;
    RunKeepsOk(c, s, es, s');
    MeasureNonNegative(c, s');
    if es != [] {
      var n := |es| - 1;
      OkSize(c, s);
      var mid := Run(c, s, es[..n]).value;
      StopIsBounded(c, s, es[..n], mid);
      if mid.phase == Done {
        DoneStays(c, mid, es[n]);
      } else {
        MeasureDecreases(c, mid, es[n]);
      }
    }
  }

  // So when the workers and Stop run, without further Adds, until only ticks are left to
  // happen, Stop has returned.
  lemma StopReturns(c: Config, past: seq<Event>, s: Pool, es: seq<Event>, s': Pool)
    requires c.Valid() && Leads(c, Fresh(c), past, s) && s.phase.Sending?
    requires Leads(c, s, es, s') && NoAdds(es)
    requires forall e :: Enabled(c, s', e) ==> !Progress(e)
    ensures s'.phase == Done
    ensures ProgressCount(es) <= Measure(s)
  {
    hide Ok, Measure, Leads, NoAdds, Enabled;
    FreshOk(c);
    RunKeepsOk(c, Fresh(c), past, s);
    StopIsBounded(c, s, es, s');
    if s'.phase.Sending? {
      var e := AlwaysProgress(c, s');
    }
  }

  // After Stop has returned every worker has returned, so only Add is left.
  lemma DoneStays(c: Config, s: Pool, e: Event)
    requires c.Valid() && Ok(c, s) && s.phase == Done && Enabled(c, s, e)
    ensures e.Add?
  {
  }
}
