// Retries with exponential backoff: pkg/retry/retry.go.
//
// Durations are signed 64-bit numbers of nanoseconds.
module Retry {
  import opened Arithmetic
  import opened Wrappers

  const TWO63: int := 0x8000_0000_0000_0000
  const TWO64: int := 0x1_0000_0000_0000_0000

  // 2^48.  Half of the spacing of float64 numbers between 32 and 64 is 1 / HALF.
  const HALF: int := 0x1_0000_0000_0000

  // The delays from here on have the logarithm 63: 23040 is 22 ulps and a half.
  const TOO_LONG: int := TWO63 - 23040

  // ---------- powers of two ----------

  function Pow2(n: nat): (p: int)
    ensures p >= 1
  {
    if n == 0 then 1 else 2 * Pow2(n - 1)
  }

  // floor(log2 d).
  function Log2(d: int): (r: nat)
    requires d > 0
  {
    if d == 1 then 0 else 1 + Log2(d / 2)
  }

  lemma {:induction false} Log2Bounds(d: int)
    requires d > 0
    ensures Pow2(Log2(d)) <= d < Pow2(Log2(d) + 1)
  {
    if d > 1 {
      Log2Bounds(d / 2);
    }
  }

  lemma {:induction false} Pow2Mono(m: nat, n: nat)
    requires m <= n
    ensures Pow2(m) <= Pow2(n)
    decreases n - m
  {
    if m < n {
      Pow2Mono(m + 1, n);
    }
  }

  lemma {:induction false} Pow2Add(m: nat, n: nat)
    ensures Pow2(m + n) == Pow2(m) * Pow2(n)
  {
    if m > 0 {
      Pow2Add(m - 1, n);
    }
  }

  lemma Pow2At10()
    ensures Pow2(3) == 8 && Pow2(5) == 32 && Pow2(10) == 1024
  {
    assert Pow2(2) == 4;
    Pow2Add(2, 3);
    Pow2Add(5, 5);
  }

  lemma Pow2At40()
    ensures Pow2(40) == 1024 * 1024 * 1024 * 1024
  {
    hide Pow2;
    Pow2At10();
    Pow2Add(10, 10);
    Pow2Add(20, 20);
  }

  lemma Pow2At63()
    ensures Pow2(63) == TWO63
  {
    hide Pow2;
    Pow2At10();
    Pow2At40();
    Pow2Add(10, 10);
    Pow2Add(40, 20);
    Pow2Add(60, 3);
  }

  lemma Pow2At48()
    ensures Pow2(48) == HALF && Pow2(49) == 2 * HALF
  {
    Pow2At10();
    Pow2At40();
    Pow2Add(40, 5);
    Pow2Add(45, 3);
  }

  lemma Log2Range(d: int)
    requires 0 < d < TWO63
    ensures Log2(d) <= 62
  {
    Log2Bounds(d);
    Pow2At63();
    if Log2(d) >= 63 {
      Pow2Mono(63, Log2(d));
    }
  }

  lemma {:induction false} Log2Unique(d: int, e: nat)
    requires Pow2(e) <= d < Pow2(e + 1)
    ensures d > 0 && Log2(d) == e
  {
    Log2Bounds(d);
    if Log2(d) < e {
      Pow2Mono(Log2(d) + 1, e);
    } else if Log2(d) > e {
      Pow2Mono(e + 1, Log2(d));
    }
  }

  // ---------- the floating-point logarithm ----------

  // float64(d): the 53 leading bits of d, rounded to the nearest, ties to even.
  function RoundEven(d: int): (r: int)
    requires d > 0
  {
    var e := Log2(d);
    if e <= 52 then d else Nearest(d, Pow2(e - 52))
  }

  // The multiple of ulp nearest to d, of two the even one.
  function Nearest(d: int, ulp: int): (r: int)
    requires ulp >= 1
  {
    var q, rem := d / ulp, d % ulp;
    if 2 * rem < ulp || (2 * rem == ulp && q % 2 == 0) then q * ulp else (q + 1) * ulp
  }

  // What math.Floor(math.Log2(x)) returns for a whole number x: the exponent of a power of
  // two.  Else the logarithm falls short of e + 1 by -log2(1 - u), where u is the part of the
  // next power of two that x lacks.  That is at least 1.4426 u and, for small u, at most
  // 1.4428 u, the error of the library included.  The sum of exponent and logarithm of the
  // fraction is rounded: a shortfall of half the spacing of float64 numbers is lost, a larger
  // one is not.
  ghost predicate FloorLog(x: int, k: int)
    requires x > 0
  {
    var e := Log2(x);
    var next := Pow2(e + 1);
    if x == Pow2(e) then k == e
    else
      && (k == e || k == e + 1)
      && (14428 * (next - x) * HALF <= 10000 * next ==> k == e + 1)
      && (14426 * (next - x) * HALF > 10000 * next ==> k == e)
  }

  // log(d) is what math.Floor(math.Log2(float64(d))) returns.
  ghost predicate Estimates(log: int -> int) {
    forall d :: 0 < d < TWO63 ==> RoundEven(d) > 0 && FloorLog(RoundEven(d), log(d))
  }

  lemma EstimateExists()
    ensures exists log :: Estimates(log)
  {
    var log := (d: int) => if d > 0 && RoundEven(d) > 0 then NearestLog(RoundEven(d)) else 0;
    forall d | 0 < d < TWO63 ensures RoundEven(d) > 0 && FloorLog(RoundEven(d), log(d)) {
      RoundBounds(d);
    }
    assert Estimates(log);
  }

  function NearestLog(x: int): (k: int)
    requires x > 0
    ensures FloorLog(x, k)
  {
    var e := Log2(x);
    var next := Pow2(e + 1);
    Log2Bounds(x);
    if x != Pow2(e) && 14428 * (next - x) * HALF <= 10000 * next then e + 1 else e
  }

  // Rounding stays between the powers of two around d and moves d by half an ulp at most.
  lemma RoundBounds(d: int)
    requires d > 0
    ensures var e, r := Log2(d), RoundEven(d);
            && Pow2(e) <= r <= Pow2(e + 1)
            && (e <= 52 ==> r == d)
            && (e > 52 ==> 2 * (r - d) <= Pow2(e - 52))
  {
    hide Pow2, Nearest;
    Log2Bounds(d);
    var e := Log2(d);
    if e > 52 {
      Pow2Add(52, e - 52);
      Pow2Add(53, e - 52);
      NearestBounds(d, Pow2(e - 52), Pow2(52), Pow2(53));
    }
  }

  // Rounding a number between two multiples of ulp to a multiple stays between them.
  lemma NearestBounds(d: int, ulp: int, a: int, b: int)
    requires ulp >= 1 && a * ulp <= d < b * ulp
    ensures a * ulp <= Nearest(d, ulp) <= b * ulp
    ensures 2 * (Nearest(d, ulp) - d) <= ulp
  {
    QuotientAndRemainder(d, ulp);
    MulNext(d / ulp, ulp);
    QuotientAround(d / ulp, d, ulp, a, b);
  }

  lemma QuotientAround(q: int, d: int, ulp: int, a: int, b: int)
    requires ulp >= 1 && a * ulp <= d < b * ulp
    requires q * ulp <= d < (q + 1) * ulp
    ensures a * ulp <= q * ulp && (q + 1) * ulp <= b * ulp
  {
    if q < a {
      MulMono(q + 1, a, ulp);
    }
    if b < q + 1 {
      MulMono(b, q, ulp);
    }
    MulMono(a, q, ulp);
    MulMono(q + 1, b, ulp);
  }

  // So the estimate is the logarithm of d or one more.
  lemma EstimateBounds(log: int -> int, d: int)
    requires Estimates(log) && 0 < d < TWO63
    ensures Log2(d) <= log(d) <= Log2(d) + 1
  {
    hide RoundEven;
    var e, r := Log2(d), RoundEven(d);
    RoundBounds(d);
    if r == Pow2(e + 1) {
      Log2Unique(r, e + 1);
    } else {
      Log2Unique(r, e);
    }
  }

  // Below 2^49 - 1 nanoseconds, over six days, it is exact.
  lemma SmallIsExact(log: int -> int, d: int)
    requires Estimates(log) && 0 < d < 2 * HALF - 1
    ensures log(d) == Log2(d)
  {
    hide RoundEven, Pow2;
    var e := Log2(d);
    Log2Bounds(d);
    Pow2At48();
    if e >= 49 {
      Pow2Mono(49, e);
    }
    RoundBounds(d);
    if e <= 47 {
      Pow2Mono(e + 1, 48);
    }
    FarFromNext(d, Pow2(e + 1));
    assert FloorLog(d, log(d));
  }

  lemma FarFromNext(d: int, next: int)
    requires d < next <= HALF || (next == 2 * HALF && d < next - 1)
    ensures 14426 * (next - d) * HALF > 10000 * next
  {
  }

  // At 2^49 - 1 it is not.
  lemma FirstInexact(log: int -> int)
    requires Estimates(log)
    ensures Log2(2 * HALF - 1) == 48 && log(2 * HALF - 1) == 49
  {
    hide RoundEven, Pow2;
    var d := 2 * HALF - 1;
    Pow2At48();
    Log2Unique(d, 48);
    RoundBounds(d);
    assert FloorLog(d, log(d));
  }

  lemma TopIsRounded(log: int -> int, d: int)
    requires Estimates(log) && TOO_LONG <= d < TWO63
    ensures log(d) == 63
  {
    hide RoundEven, Pow2;
    Pow2At63();
    TopUlp(d);
    var r := RoundEven(d);
    if r == TWO63 {
      Pow2Mono(63, 64);
      PowerLog(63);
    } else {
      Log2Unique(r, 62);
    }
    assert FloorLog(r, log(d));
  }

  lemma PowerLog(e: nat)
    ensures Log2(Pow2(e)) == e
  {
    assert Pow2(e + 1) == 2 * Pow2(e);
    Log2Unique(Pow2(e), e);
  }

  // At the top an ulp is 1024, and halfway between the last two multiples that matter the
  // upper one is even.
  lemma TopUlp(d: int)
    requires TWO63 / 2 <= d < TWO63
    ensures Log2(d) == 62 && Pow2(62) == TWO63 / 2
    ensures d >= TOO_LONG ==> TWO63 - 22 * 1024 <= RoundEven(d) <= TWO63
    ensures d < TOO_LONG ==> TWO63 / 2 <= RoundEven(d) <= TWO63 - 23 * 1024
  {
    hide Pow2, Nearest;
    Pow2At63();
    Pow2Half();
    Log2Unique(d, 62);
    Pow2At10();
    assert RoundEven(d) == Nearest(d, 1024);
    NearestAt(d);
  }

  lemma Pow2Half()
    ensures 2 * Pow2(62) == Pow2(63)
  {
  }

  lemma NearestAt(d: int)
    requires TWO63 / 2 <= d < TWO63
    ensures d >= TOO_LONG ==> TWO63 - 22 * 1024 <= Nearest(d, 1024) <= TWO63
    ensures d < TOO_LONG ==> TWO63 / 2 <= Nearest(d, 1024) <= TWO63 - 23 * 1024
  {
    var q, rem := d / 1024, d % 1024;
    assert d == q * 1024 + rem && 0 <= rem < 1024;
    if d >= TOO_LONG {
      assert TWO63 / 1024 - 23 <= q < TWO63 / 1024;
    } else {
      assert q < TWO63 / 1024 - 23 || (q == TWO63 / 1024 - 23 && rem < 512);
    }
  }

  // Shorter delays are not.
  lemma BelowTop(log: int -> int, d: int)
    requires Estimates(log) && 0 < d < TOO_LONG
    ensures log(d) <= 62
  {
    hide RoundEven, Pow2;
    Log2Range(d);
    EstimateBounds(log, d);
    if Log2(d) == 62 {
      Log2Bounds(d);
      Pow2At63();
      Pow2Half();
      var r := RoundEven(d);
      TopUlp(d);
      Log2Unique(r, 62);
      assert FloorLog(r, log(d));
    }
  }

  // ---------- backoff ----------

  // The signed 64-bit value of an integer.
  function Wrap(x: int): (r: int) {
    var u := x % TWO64;
    if u < TWO63 then u else u - TWO64
  }

  // d << n on int64.
  function Shl(d: int, n: nat): (r: int) { Wrap(d * Pow2(n)) }

  function Min(a: int, b: int): (r: int) { if a <= b then a else b }

  // The delay in use: a non-positive one counts as one nanosecond.
  function Base(delay: int): (r: int) { if delay <= 0 then 1 else delay }

  // The number of doublings for the n-th wait, given the logarithm of the delay.
  function Doublings(log: int, n: int): (r: int) { Min(n, 62 - log) }

  // The same for the exact logarithm.
  function Exponent(delay: int, n: nat): (k: nat)
    requires 0 < delay < TWO63
  {
    Log2Range(delay);
    Min(n, 62 - Log2(delay))
  }

  datatype Strategy = BackOff | Fixed

  // How a call of fn ended; nil is success.
  type Outcome = Option<int>

  datatype Ended = Returned(err: Outcome) | Panicked

  class Retrier {
    const log: int -> int
    const retry: int
    const maxDelay: int
    const strategy: Strategy
    var delay: int
    var backoff: int

    // backoff is zero until it is computed from the delay.
    ghost predicate Valid()
      reads this
    {
      && Estimates(log)
      && delay < TWO63
      && (backoff != 0 ==> delay > 0 && backoff == 62 - log(delay))
    }

    constructor (log: int -> int, retry: int, delay: int, maxDelay: int, strategy: Strategy)
      requires Estimates(log) && delay < TWO63
      ensures Valid() && this.log == log && this.retry == retry && this.delay == delay
      ensures this.maxDelay == maxDelay && this.strategy == strategy
    {
      this.log, this.retry, this.delay := log, retry, delay;
      this.maxDelay, this.strategy, this.backoff := maxDelay, strategy, 0;
    }

    // The answer does not depend on whether `backoff` was memoised, and the shift does not
    // overflow.  A negative shift count panics.
    method BackOffDelay(n: int) returns (r: Option<int>)
      requires Valid()
      modifies this`delay, this`backoff
      ensures Valid() && delay == if old(delay) <= 0 then 1 else old(delay)
      ensures var k := if n < 62 - log(delay) then n else 62 - log(delay);
              r == if k < 0 then None else Some(delay * Pow2(k))
      ensures r.Some? ==> delay <= r.value < TWO63
      ensures r == None <==> n < 0 || delay >= TOO_LONG
      ensures n >= 0 && delay < 2 * HALF - 1 ==> r == Some(delay * Pow2(Exponent(delay, n)))
    {
      hide Estimates;
      PanicIff(log, Base(delay), n);
      var max := 62;
      if backoff == 0 {
        if delay <= 0 {
          delay := 1;
        }
        backoff := max - log(delay);
      }
      var n := n;
      if n > backoff {
        n := backoff;
      }
      if n < 0 {
        return None;
      }
      ShiftFits(delay, log(delay), n);
      r := Some(Shl(delay, n));
    }

    // delay(o, n): the strategy's delay, cut at a positive maxDelay.
    method DelayTime(n: int) returns (r: Option<int>)
      requires Valid()
      modifies this`delay, this`backoff
      ensures Valid()
      ensures delay == if strategy == BackOff && old(delay) <= 0 then 1 else old(delay)
      ensures r == Wait(strategy, log(delay), delay, maxDelay, n)
      ensures strategy == Fixed ==> Limited(Some(delay), maxDelay, r)
      ensures strategy == BackOff ==>
                var k := if n < 62 - log(delay) then n else 62 - log(delay);
                Limited(if k < 0 then None else Some(delay * Pow2(k)), maxDelay, r)
      ensures r == None <==> strategy == BackOff && (n < 0 || delay >= TOO_LONG)
    {
      if strategy == BackOff {
        r := BackOffDelay(n);
      } else {
        r := Some(delay);
      }
      if r.Some? && maxDelay > 0 && r.value > maxDelay {
        r := Some(maxDelay);
      }
    }

    /** fn(i) is the outcome of its i-th call, counted from 1. */
    method Run(fn: nat -> Outcome) returns (ended: Ended, calls: nat, waits: seq<int>)
      requires Valid()
      modifies this`delay, this`backoff
      ensures Valid()
      ensures retry <= 0 ==> ended == Returned(None) && calls == 0 && waits == []
      ensures retry > 0 ==> 1 <= calls <= retry
      ensures forall i :: 1 <= i < calls ==> fn(i).Some?
      ensures ended.Returned? && retry > 0 ==>
                && ended.err == fn(calls)
                && (calls < retry ==> fn(calls) == None)
                && |waits| == calls - 1
      ensures ended.Panicked? <==>
                strategy == BackOff && Base(old(delay)) >= TOO_LONG && retry > 1 && fn(1).Some?
      ensures ended.Panicked? ==> calls == 1 && waits == []
      ensures forall i :: 0 <= i < |waits| ==>
                var d := if strategy == BackOff && old(delay) <= 0 then 1 else old(delay);
                Some(waits[i]) == Wait(strategy, log(d), d, maxDelay, i + 1)
      ensures strategy == Fixed ==> forall i :: 0 <= i < |waits| ==> Limited(Some(old(delay)), maxDelay, Some(waits[i]))
      ensures strategy == BackOff ==>
                var d := if old(delay) <= 0 then 1 else old(delay);
                forall i :: 0 <= i < |waits| ==> Doubled(log(d), d, maxDelay, i + 1, waits[i])
      ensures forall i, j :: 0 <= i < j < |waits| ==> waits[i] <= waits[j]
      ensures maxDelay > 0 ==> forall i :: 0 <= i < |waits| ==> waits[i] <= maxDelay
    {
      hide Wait, Estimates;
      var err: Outcome := None;
      waits, calls := [], 0;
      ghost var d := if strategy == BackOff then Base(delay) else delay;
      var n := 1;
      while n <= retry
        invariant Valid() && 1 <= n && (retry > 0 ==> n <= retry)
        invariant calls == n - 1 && |waits| == calls
        invariant d == if strategy == BackOff then Base(delay) else delay
        invariant forall i :: 1 <= i <= calls ==> fn(i).Some?
        invariant retry <= 0 ==> n == 1 && err == None
        invariant n > 1 ==> strategy == Fixed || d < TOO_LONG
        invariant forall i :: 0 <= i < |waits| ==> Some(waits[i]) == Wait(strategy, log(d), d, maxDelay, i + 1)
        decreases retry - n
      {
        err := fn(n);
        calls := n;
        if err == None {
          break;
        }
        if n == retry {
          break;
        }
        var w := DelayTime(n);
        if w == None {
          WaitsOf(strategy, log(d), d, maxDelay, waits);
          WaitsAre(strategy, log(d), d, maxDelay, waits);
          return Panicked, calls, waits;
        }
        waits := waits + [w.value];
        n := n + 1;
      }
      ended := Returned(err);
      WaitsOf(strategy, log(d), d, maxDelay, waits);
      WaitsAre(strategy, log(d), d, maxDelay, waits);
    }
  }

  // The wait w is cut at a positive maxDelay; the panic is not.
  predicate Limited(w: Option<int>, maxDelay: int, r: Option<int>) {
    match w
    case None => r == None
    case Some(x) => r == Some(if 0 < maxDelay < x then maxDelay else x)
  }

  // The n-th wait under a backoff: the delay doubled n times, but no more often than fits,
  // and cut.
  ghost predicate Doubled(log: int, d: int, maxDelay: int, n: int, w: int) {
    var k := if n < 62 - log then n else 62 - log;
    k >= 0 && Limited(Some(d * Pow2(k)), maxDelay, Some(w))
  }

  lemma WaitIs(strategy: Strategy, log: int, d: int, maxDelay: int, n: int)
    ensures strategy == Fixed ==> Limited(Some(d), maxDelay, Wait(strategy, log, d, maxDelay, n))
    ensures strategy == BackOff ==>
              var k := if n < 62 - log then n else 62 - log;
              Limited(if k < 0 then None else Some(d * Pow2(k)), maxDelay, Wait(strategy, log, d, maxDelay, n))
  {
  }

  lemma WaitsAre(strategy: Strategy, log: int, d: int, maxDelay: int, waits: seq<int>)
    requires forall i :: 0 <= i < |waits| ==> Some(waits[i]) == Wait(strategy, log, d, maxDelay, i + 1)
    ensures strategy == Fixed ==> forall i :: 0 <= i < |waits| ==> Limited(Some(d), maxDelay, Some(waits[i]))
    ensures strategy == BackOff ==>
              forall i :: 0 <= i < |waits| ==> Doubled(log, d, maxDelay, i + 1, waits[i])
  {
    hide Wait;
    forall i | 0 <= i < |waits|
      ensures strategy == Fixed ==> Limited(Some(d), maxDelay, Some(waits[i]))
      ensures strategy == BackOff ==> Doubled(log, d, maxDelay, i + 1, waits[i])
    {
      var w := waits[i];
      WaitIs(strategy, log, d, maxDelay, i + 1);
    }
  }

  // The n-th wait of a strategy.
  function Wait(strategy: Strategy, log: int, delay: int, maxDelay: int, n: int): (r: Option<int>) {
    var k := Doublings(log, n);
    if strategy == BackOff && k < 0 then None
    else
      var w := if strategy == BackOff then delay * Pow2(k) else delay;
      Some(if maxDelay > 0 && w > maxDelay then maxDelay else w)
  }

  lemma ShiftFits(d: int, log: int, n: nat)
    requires 0 < d < TWO63 && Log2(d) <= log && n <= 62 - log
    ensures d <= d * Pow2(n) < TWO63 && Shl(d, n) == d * Pow2(n)
  {
    hide Pow2, Log2, Wrap;
    Log2Bounds(d);
    Pow2At63();
    Pow2Add(Log2(d) + 1, n);
    Pow2Mono(Log2(d) + 1 + n, 63);
    MulBetween(d, Pow2(Log2(d) + 1), Pow2(n));
    WrapFits(d * Pow2(n));
  }

  lemma WrapFits(x: int)
    requires 0 <= x < TWO63
    ensures Wrap(x) == x
  {
  }

  // ---------- the schedule of delays ----------

  // With an exact logarithm the n-th delay is d doubled min(n, 62 - floor(log2 d)) times:
  // it is defined, stays below 2^63, and one more doubling at the cap would not.
  lemma BackOffIsExact(d: int, n: nat)
    requires 0 < d < TWO63
    ensures var cap := 62 - Log2(d);
            && cap >= 0
            && Wait(BackOff, Log2(d), d, 0, n) == Some(d * Pow2(Min(n, cap)))
            && d <= d * Pow2(Min(n, cap)) < TWO63
            && d * Pow2(cap + 1) >= TWO63
  {
    Log2Range(d);
    ShiftFits(d, Log2(d), Min(n, 62 - Log2(d)));
    CapIsLargest(d);
  }

  lemma CapIsLargest(d: int)
    requires 0 < d && Log2(d) <= 62
    ensures d * Pow2(63 - Log2(d)) >= TWO63
  {
    Log2Bounds(d);
    Pow2At63();
    Pow2Add(Log2(d), 63 - Log2(d));
    MulMono(Pow2(Log2(d)), d, Pow2(63 - Log2(d)));
  }

  // Which delays panic: exactly those from TOO_LONG on.
  lemma PanicIff(log: int -> int, d: int, n: int)
    requires Estimates(log) && 0 < d < TWO63
    ensures Doublings(log(d), n) < 0 <==> n < 0 || d >= TOO_LONG
    ensures Log2(d) <= log(d)
    ensures n >= 0 && d < 2 * HALF - 1 ==> Doublings(log(d), n) == Exponent(d, n)
  {
    hide Estimates;
    Log2Range(d);
    EstimateBounds(log, d);
    if d < TOO_LONG {
      BelowTop(log, d);
    } else {
      TopIsRounded(log, d);
    }
    if d < 2 * HALF - 1 {
      SmallIsExact(log, d);
    }
  }

  // The largest duration, math.MaxInt64, panics at every wait.
  lemma LargestDelayPanics(log: int -> int, maxDelay: int, n: int)
    requires Estimates(log)
    ensures Wait(BackOff, log(TWO63 - 1), TWO63 - 1, maxDelay, n) == None
  {
    TopIsRounded(log, TWO63 - 1);
  }

  // The waits of a run never decrease and never exceed a positive maxDelay.
  lemma WaitsGrow(strategy: Strategy, log: int, d: int, maxDelay: int, m: nat, n: nat)
    requires m <= n && (strategy == BackOff ==> log <= 62 && d > 0)
    ensures var a, b := Wait(strategy, log, d, maxDelay, m), Wait(strategy, log, d, maxDelay, n);
            && a.Some? && b.Some? && a.value <= b.value
            && (maxDelay > 0 ==> b.value <= maxDelay)
            && (strategy == BackOff && maxDelay <= 0 ==> d <= a.value)
  {
    var j, k := Doublings(log, m), Doublings(log, n);
    if strategy == BackOff {
      Pow2Mono(j, k);
      MulMono(Pow2(j), Pow2(k), d);
      MulMono(1, Pow2(j), d);
    }
  }

  lemma WaitsOf(strategy: Strategy, log: int, d: int, maxDelay: int, waits: seq<int>)
    requires strategy == BackOff ==> d > 0
    requires forall i :: 0 <= i < |waits| ==> Some(waits[i]) == Wait(strategy, log, d, maxDelay, i + 1)
    ensures forall i, j :: 0 <= i < j < |waits| ==> waits[i] <= waits[j]
    ensures maxDelay > 0 ==> forall i :: 0 <= i < |waits| ==> waits[i] <= maxDelay
  {
    hide Wait;
    if waits != [] {
      FirstWait(strategy, log, d, maxDelay, waits[0]);
      forall i, j | 0 <= i <= j < |waits|
        ensures waits[i] <= waits[j] && (maxDelay > 0 ==> waits[j] <= maxDelay)
      {
        WaitsGrow(strategy, log, d, maxDelay, i + 1, j + 1);
      }
      forall i | 0 <= i < |waits| ensures maxDelay > 0 ==> waits[i] <= maxDelay {
        WaitsGrow(strategy, log, d, maxDelay, i + 1, i + 1);
      }
    }
  }

  lemma FirstWait(strategy: Strategy, log: int, d: int, maxDelay: int, w: int)
    requires Some(w) == Wait(strategy, log, d, maxDelay, 1)
    ensures strategy == BackOff ==> log <= 62
  {
  }
}
