/** Millisecond timers: src/timer.hh. */
module Timers {
  import opened Common

  /** The value of a timer. */
  datatype Clock = Clock(timeoutMs: nat, elapsedMs: nat, running: bool)
  {
    function Start(): Clock { this.(running := true, elapsedMs := 0) }

    function Stop(): Clock { this.(running := false, elapsedMs := 0) }

    /** The elapsed time is a 64-bit counter. */
    function Tick(ms: nat): Clock
    {
      if running then this.(elapsedMs := Add64(elapsedMs, ms)) else this
    }

    predicate Expired() { running && elapsedMs >= timeoutMs }

    /** The timer after a series of ticks. */
    function Ticks(ticks: seq<nat>): Clock
    {
      if ticks == [] then this else Ticks(ticks[..|ticks| - 1]).Tick(ticks[|ticks| - 1])
    }
  }

  function TotalMs(ticks: seq<nat>): nat
  {
    if ticks == [] then 0 else TotalMs(ticks[..|ticks| - 1]) + ticks[|ticks| - 1]
  }

  /** A started timer expires exactly when the ticks since add up to the timeout, in 64 bits;
      a stopped one never does. */
  lemma {:induction false} ExpiresExactly(c: Clock, ticks: seq<nat>)
    ensures c.Start().Ticks(ticks) == Clock(c.timeoutMs, TotalMs(ticks) % 0x1_0000_0000_0000_0000, true)
    ensures c.Start().Ticks(ticks).Expired() <==> TotalMs(ticks) % 0x1_0000_0000_0000_0000 >= c.timeoutMs
    ensures !c.Stop().Ticks(ticks).Expired() && c.Stop().Ticks(ticks) == c.Stop()
  {
    if ticks != [] {
      ExpiresExactly(c, ticks[..|ticks| - 1]);
      AddModulo(TotalMs(ticks[..|ticks| - 1]), ticks[|ticks| - 1]);
    }
  }

  lemma AddModulo(a: nat, b: nat)
    ensures Add64(a % 0x1_0000_0000_0000_0000, b) == (a + b) % 0x1_0000_0000_0000_0000
  {
    var q, r := a / 0x1_0000_0000_0000_0000, a % 0x1_0000_0000_0000_0000;
    var q', r' := (r + b) / 0x1_0000_0000_0000_0000, (r + b) % 0x1_0000_0000_0000_0000;
    Remainder(a + b, q + q', r');
  }

  class Timer {
    var timeoutMs: nat
    var elapsedMs: nat
    var running: bool

    ghost function State(): Clock
      reads this
    {
      Clock(timeoutMs, elapsedMs, running)
    }

    constructor (timeoutMs: nat)
      ensures State() == Clock(timeoutMs, 0, false)
    {
      this.timeoutMs, elapsedMs, running := timeoutMs, 0, false;
    }

    method Start()
      modifies this
      ensures State() == old(State()).Start()
    {
      running, elapsedMs := true, 0;
    }

    method Stop()
      modifies this
      ensures State() == old(State()).Stop()
    {
      running, elapsedMs := false, 0;
    }

    method Tick(ms: nat)
      modifies this
      ensures State() == old(State()).Tick(ms)
    {
      if running {
        elapsedMs := Add64(elapsedMs, ms);
      }
    }

    function IsExpired(): (b: bool)
      reads this
      ensures b == State().Expired()
    {
      running && elapsedMs >= timeoutMs
    }
  }

  function Pow2(n: nat): (p: nat)
    ensures p >= 1
  {
    if n == 0 then 1 else 2 * Pow2(n - 1)
  }

  /** The value of a retransmission timer. */
  datatype Rto = Rto(initialMs: nat, clock: Clock, retransmissions: nat)
  {
    function Start(): Rto { this.(clock := clock.Start()) }

    function Stop(): Rto { this.(clock := clock.Stop()) }

    function Tick(ms: nat): Rto { this.(clock := clock.Tick(ms)) }

    function ResetBackoff(): Rto
    {
      this.(clock := clock.(timeoutMs := initialMs), retransmissions := 0)
    }

    function RecordRetransmission(): Rto
    {
      this.(clock := clock.(timeoutMs := Add64(clock.timeoutMs, clock.timeoutMs)),
            retransmissions := retransmissions + 1)
    }

    /** The timeout is the initial one doubled once per consecutive retransmission, modulo 2^64. */
    ghost predicate BackoffExact()
    {
      && initialMs < 0x1_0000_0000_0000_0000
      && clock.timeoutMs == (initialMs * Pow2(retransmissions)) % 0x1_0000_0000_0000_0000
    }
  }

  function NewRto(initialMs: nat): Rto { Rto(initialMs, Clock(initialMs, 0, false), 0) }

  /** Every operation of the timer keeps the backoff exact. */
  lemma BackoffKept(t: Rto, ms: nat)
    requires t.BackoffExact()
    ensures t.Start().BackoffExact() && t.Stop().BackoffExact() && t.Tick(ms).BackoffExact()
    ensures t.ResetBackoff().BackoffExact() && t.RecordRetransmission().BackoffExact()
  {
    var x := t.initialMs * Pow2(t.retransmissions);
    assert t.initialMs * Pow2(t.retransmissions + 1) == 2 * x by {
      assert Pow2(t.retransmissions + 1) == 2 * Pow2(t.retransmissions);
    }
    DoubleModulo(x);
  }

  lemma DoubleModulo(x: nat)
    ensures Add64(x % 0x1_0000_0000_0000_0000, x % 0x1_0000_0000_0000_0000) == (2 * x) % 0x1_0000_0000_0000_0000
  {
    var q, r := x / 0x1_0000_0000_0000_0000, x % 0x1_0000_0000_0000_0000;
    Double(x, q, r);
  }

  lemma Double(x: nat, q: nat, r: nat)
    requires x == 0x1_0000_0000_0000_0000 * q + r && r < 0x1_0000_0000_0000_0000
    ensures Add64(r, r) == (2 * x) % 0x1_0000_0000_0000_0000
  {
    if r + r < 0x1_0000_0000_0000_0000 {
      Remainder(2 * x, 2 * q, 2 * r);
    } else {
      Remainder(2 * x, 2 * q + 1, 2 * r - 0x1_0000_0000_0000_0000);
      Remainder(2 * r, 1, 2 * r - 0x1_0000_0000_0000_0000);
    }
  }

  lemma Remainder(n: nat, q: nat, r: nat)
    requires n == 0x1_0000_0000_0000_0000 * q + r && r < 0x1_0000_0000_0000_0000
    ensures n % 0x1_0000_0000_0000_0000 == r
  {
  }

  class RetransmissionTimer {
    const initialMs: nat
    const timer: Timer
    var consecutiveRetransmissions: nat

    ghost function State(): Rto
      reads this, timer
    {
      Rto(initialMs, timer.State(), consecutiveRetransmissions)
    }

    constructor (initialMs: nat)
      ensures State() == NewRto(initialMs) && fresh(timer)
    {
      this.initialMs := initialMs;
      timer := new Timer(initialMs);
      consecutiveRetransmissions := 0;
    }

    method Start()
      modifies timer
      ensures State() == old(State()).Start()
    {
      timer.Start();
    }

    method Stop()
      modifies timer
      ensures State() == old(State()).Stop()
    {
      timer.Stop();
    }

    method Tick(ms: nat)
      modifies timer
      ensures State() == old(State()).Tick(ms)
    {
      timer.Tick(ms);
    }

    method ResetBackoff()
      modifies this, timer
      ensures State() == old(State()).ResetBackoff()
    {
      timer.timeoutMs := initialMs;
      consecutiveRetransmissions := 0;
    }

    method RecordRetransmission()
      modifies this, timer
      ensures State() == old(State()).RecordRetransmission()
    {
      consecutiveRetransmissions := consecutiveRetransmissions + 1;
      timer.timeoutMs := Add64(timer.timeoutMs, timer.timeoutMs);
    }
  }
}
