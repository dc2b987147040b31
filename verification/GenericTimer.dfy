/** The Arm Generic Timer of hal/hal-arm64/src/timer.rs: nanoseconds to counter ticks
    and back, and the comparator they program. */
module GenericTimer {
  import opened Bits

  const BILLION: nat := 1_000_000_000

  datatype Result = Ok | InvalidTimerDeadline

  /** The conversions before truncation to 64 bits. */
  function TicksOf(deadlineNs: nat, hz: nat): nat {
    deadlineNs * hz / BILLION
  }

  function NsOf(ticks: nat, hz: nat): nat
    requires hz > 0
  {
    ticks * BILLION / hz
  }

  /** `deadline_ns_to_ticks` and `now_ns`. */
  function Ticks(deadlineNs: U64, hz: U64): U64 {
    TicksOf(deadlineNs, hz) % TWO64
  }

  function Now(counter: U64, hz: U64): U64
    requires hz > 0
  {
    NsOf(counter, hz) % TWO64
  }

  /** The length of a tick, rounded up to nanoseconds. */
  function TickNs(hz: nat): nat
    requires hz > 0
  {
    (BILLION + hz - 1) / hz
  }

  /** Whole seconds: `s` of them are `s` times the frequency in ticks and 10^9 in
      nanoseconds, both ways. */
  lemma WholeSeconds(s: nat, hz: nat)
    requires hz > 0
    ensures TicksOf(s * 1_000_000_000, hz) == s * hz
    ensures NsOf(s * hz, hz) == s * 1_000_000_000
  {
    assert s * 1_000_000_000 * hz == s * hz * BILLION && s * hz * BILLION == s * BILLION * hz;
    ModUnique(s * hz * BILLION, BILLION, s * hz, 0);
    ModUnique(s * BILLION * hz, hz, s * BILLION, 0);
  }

  /** The least whole number of nanoseconds that is not shorter than a tick. */
  lemma TickIsRoundedUp(hz: nat)
    requires hz > 0
    ensures (TickNs(hz) - 1) * hz < 1_000_000_000 <= TickNs(hz) * hz
  {
    Quotient(BILLION + hz - 1, hz);
    assert (TickNs(hz) + 1) * hz == TickNs(hz) * hz + hz && (TickNs(hz) - 1) * hz == TickNs(hz) * hz - hz;
  }

  /** Quotients are sandwiched by their multiples. */
  lemma Quotient(n: nat, d: nat)
    requires d > 0
    ensures n / d * d <= n < (n / d + 1) * d
  {
    assert n == n / d * d + n % d;
  }

  lemma LessByFactor(x: nat, y: nat, d: nat)
    requires d > 0 && x * d < y * d
    ensures x < y
  {
    if x >= y {
      MulOrder(y, x, d);
    }
  }

  lemma QuotientAtLeast(n: nat, d: nat, k: nat)
    requires d > 0 && k * d <= n
    ensures k <= n / d
  {
    Quotient(n, d);
    LessByFactor(k, n / d + 1, d);
  }

  lemma QuotientOrder(a: nat, b: nat, d: nat)
    requires d > 0 && a <= b
    ensures a / d <= b / d
  {
    var q := a / d;
    assert q * d <= a by {
      Quotient(a, d);
    }
    QuotientAtLeast(b, d, q);
  }

  /** A deadline after the sampled time is not before the sampled tick. */
  lemma NotBeforeSample(deadlineNs: nat, counter: nat, hz: nat)
    requires hz > 0 && NsOf(counter, hz) < deadlineNs
    ensures counter <= TicksOf(deadlineNs, hz)
  {
    Quotient(counter * BILLION, hz);
    assert (NsOf(counter, hz) + 1) * hz <= deadlineNs * hz by {
      MulOrder(NsOf(counter, hz) + 1, deadlineNs, hz);
    }
    QuotientAtLeast(deadlineNs * hz, BILLION, counter);
  }

  lemma MulOrder(x: nat, y: nat, d: nat)
    requires x <= y
    ensures x * d <= y * d
  {
    assert y * d == x * d + (y - x) * d;
  }

  /** The comparator's tick reads as at most the deadline. */
  lemma NotAfterDeadline(deadlineNs: nat, hz: nat)
    requires hz > 0
    ensures NsOf(TicksOf(deadlineNs, hz), hz) <= deadlineNs
  {
    var t := TicksOf(deadlineNs, hz);
    Quotient(deadlineNs * hz, BILLION);
    Quotient(t * BILLION, hz);
    assert NsOf(t, hz) * hz < (deadlineNs + 1) * hz;
    LessByFactor(NsOf(t, hz), deadlineNs + 1, hz);
  }

  /** And short of it by no more than a tick. */
  lemma ShortByATick(deadlineNs: nat, hz: nat)
    requires hz > 0
    ensures deadlineNs <= NsOf(TicksOf(deadlineNs, hz), hz) + TickNs(hz)
  {
    var t := TicksOf(deadlineNs, hz);
    var n, k := NsOf(t, hz), TickNs(hz);
    Quotient(deadlineNs * hz, BILLION);
    Quotient(t * BILLION, hz);
    Quotient(BILLION + hz - 1, hz);
    assert (k + 1) * hz == k * hz + hz;
    assert BILLION <= k * hz;
    assert (n + 1 + k) * hz == (n + 1) * hz + k * hz;
    assert (t + 1) * BILLION == t * BILLION + BILLION;
    assert deadlineNs * hz < (n + 1 + k) * hz;
    LessByFactor(deadlineNs, n + 1 + k, hz);
  }

  /** Before the comparator's tick, time reads below the deadline. */
  lemma NeverLate(deadlineNs: nat, counter: nat, hz: nat)
    requires hz > 0 && deadlineNs <= NsOf(counter, hz)
    ensures TicksOf(deadlineNs, hz) <= counter
  {
    Quotient(counter * BILLION, hz);
    MulOrder(deadlineNs, NsOf(counter, hz), hz);
    QuotientOrder(deadlineNs * hz, counter * BILLION, BILLION);
    assert counter * BILLION / BILLION == counter;
  }

  lemma NoWrap(n: nat)
    requires n < TWO64
    ensures n % TWO64 == n
  {
  }

  /** `now_ns` never goes back while it fits 64 bits. */
  lemma NowIsMonotone(c: U64, c': U64, hz: U64)
    requires hz > 0 && c <= c' && NsOf(c', hz) < TWO64
    ensures Now(c, hz) <= Now(c', hz)
  {
    MulOrder(c, c', BILLION);
    QuotientOrder(c * BILLION, c' * BILLION, hz);
  }

  /** And it does go back at the first counter value where it no longer fits. */
  lemma NowFallsAtWrap(c: U64, hz: U64)
    requires hz > 0 && c + 1 < TWO64 && NsOf(c, hz) < TWO64 <= NsOf(c + 1, hz)
    ensures Now(c + 1, hz) < Now(c, hz)
  {
    var a, b := NsOf(c, hz), NsOf(c + 1, hz);
    Quotient(c * BILLION, hz);
    Quotient((c + 1) * BILLION, hz);
    assert (c + 1) * BILLION == c * BILLION + BILLION;
    MulOrder(1, hz, BILLION);
    assert b * hz < (a + 1 + BILLION) * hz by {
      assert (a + 1 + BILLION) * hz == (a + 1) * hz + BILLION * hz;
    }
    LessByFactor(b, a + 1 + BILLION, hz);
    ModUnique(b, TWO64, 1, b - TWO64);
  }

  /** What a programmed comparator promises, for a deadline accepted at a sample. */
  predicate OnTime(deadlineNs: U64, counter: U64, hz: U64, cval: U64)
    requires hz > 0
  {
    counter <= cval && Now(cval, hz) <= deadlineNs <= Now(cval, hz) + TickNs(hz)
  }

  /** The promise is kept exactly when the tick count of the deadline fits 64 bits. */
  lemma OnTimeIffItFits(deadlineNs: U64, counter: U64, hz: U64)
    requires hz > 0 && NsOf(counter, hz) < TWO64 && Now(counter, hz) < deadlineNs
    ensures OnTime(deadlineNs, counter, hz, Ticks(deadlineNs, hz)) <==> TicksOf(deadlineNs, hz) < TWO64
  {
    hide TicksOf, NsOf, TickNs;
    NoWrap(NsOf(counter, hz));
    if TicksOf(deadlineNs, hz) < TWO64 {
      NoWrap(TicksOf(deadlineNs, hz));
      NotBeforeSample(deadlineNs, counter, hz);
      NotAfterDeadline(deadlineNs, hz);
      ShortByATick(deadlineNs, hz);
      NoWrap(NsOf(TicksOf(deadlineNs, hz), hz));
    } else {
      WrappedIsEarly(deadlineNs, hz);
    }
  }

  /** A wrapped tick count lies more than a tick before the deadline. */
  lemma WrappedIsEarly(deadlineNs: U64, hz: U64)
    requires hz > 0 && TicksOf(deadlineNs, hz) >= TWO64
    ensures Now(Ticks(deadlineNs, hz), hz) + TickNs(hz) < deadlineNs
  {
    var q, t := TicksOf(deadlineNs, hz), Ticks(deadlineNs, hz);
    WrapDrops(q, t);
    Quotient(deadlineNs * hz, BILLION);
    FastClock(deadlineNs, hz, q);
    Quotient(t * BILLION, hz);
    var n := NsOf(t, hz);
    MulOrder(t + TWO64, q, BILLION);
    assert (t + TWO64) * BILLION == t * BILLION + TWO64 * BILLION;
    assert (n + 2) * hz == n * hz + 2 * hz;
    assert (n + 2) * hz < deadlineNs * hz;
    LessByFactor(n + 2, deadlineNs, hz);
    OneTick(hz);
    NoWrap(n);
  }

  lemma WrapDrops(q: nat, t: nat)
    requires q >= TWO64 && t == q % TWO64
    ensures t + TWO64 <= q
  {
  }

  /** Only a clock faster than 1 GHz can wrap. */
  lemma FastClock(deadlineNs: U64, hz: U64, q: nat)
    requires q >= TWO64 && q * BILLION <= deadlineNs * hz
    ensures hz > BILLION
  {
    MulOrder(TWO64, q, BILLION);
    MulOrder(deadlineNs, TWO64 - 1, hz);
  }

  lemma OneTick(hz: nat)
    requires hz > BILLION
    ensures TickNs(hz) == 1
  {
    ModUnique(BILLION + hz - 1, hz, 1, BILLION - 1);
  }

  // ---------------------------------------------------------------------------
  // The driver
  // ---------------------------------------------------------------------------

  /** The timer of one core with its comparator registers. Counter samples are arguments. */
  class Timer {
    const frequencyHz: U64
    /** CNTP_CVAL_EL0 and CNTP_CTL_EL0.ENABLE. */
    var cval: U64
    var enabled: bool

    constructor (frequencyHz: U64)
      ensures this.frequencyHz == frequencyHz && cval == TWO64 - 1 && enabled
    {
      this.frequencyHz := frequencyHz;
      cval, enabled := TWO64 - 1, true;
    }

    method NowNs(counter: U64) returns (ns: U64)
      requires frequencyHz > 0
      ensures ns == Now(counter, frequencyHz)
    {
      ns := counter * BILLION / frequencyHz % TWO64;
    }

    /** Accepts exactly the deadlines after the sample; the comparator is then on time
        if the deadline's tick count fits, fires at every later time from the deadline on
        and never more than a tick before it, and is untouched if the deadline is refused. */
    method SetOneshot(deadlineNs: U64, counter: U64) returns (r: Result)
      requires frequencyHz > 0
      modifies this`cval
      ensures r.Ok? <==> deadlineNs > Now(counter, frequencyHz)
      ensures !r.Ok? ==> cval == old(cval)
      ensures r.Ok? ==> cval == Ticks(deadlineNs, frequencyHz)
      ensures r.Ok? && NsOf(counter, frequencyHz) < TWO64 ==>
        (OnTime(deadlineNs, counter, frequencyHz, cval) <==> TicksOf(deadlineNs, frequencyHz) < TWO64)
      ensures r.Ok? && enabled && TicksOf(deadlineNs, frequencyHz) < TWO64 ==>
        forall later: U64 | NsOf(later, frequencyHz) < TWO64 ::
          && (deadlineNs <= Now(later, frequencyHz) ==> Fires(later))
          && (Fires(later) ==> deadlineNs <= Now(later, frequencyHz) + TickNs(frequencyHz))
    {
      var now := NowNs(counter);
      if deadlineNs <= now {
        return InvalidTimerDeadline;
      }
      if NsOf(counter, frequencyHz) < TWO64 {
        OnTimeIffItFits(deadlineNs, counter, frequencyHz);
      }
      cval := deadlineNs * frequencyHz / BILLION % TWO64;
      r := Ok;
      if TicksOf(deadlineNs, frequencyHz) < TWO64 {
        forall later: U64 | NsOf(later, frequencyHz) < TWO64
          ensures deadlineNs <= Now(later, frequencyHz) ==> Ticks(deadlineNs, frequencyHz) <= later
          ensures Ticks(deadlineNs, frequencyHz) <= later ==> deadlineNs <= Now(later, frequencyHz) + TickNs(frequencyHz)
        {
          FiresAroundDeadline(deadlineNs, frequencyHz, later);
        }
      }
    }

    method CancelOneshot()
      modifies this`cval
      ensures cval == TWO64 - 1
    {
      cval := TWO64 - 1;
    }

    /** The interrupt condition at a counter value. */
    predicate Fires(counter: U64)
      reads this
    {
      enabled && counter >= cval
    }
  }

  /** An accepted deadline fires whenever time reads at or past it, and never when time
      reads more than a tick before it. */
  lemma FiresAroundDeadline(deadlineNs: U64, hz: U64, counter: U64)
    requires hz > 0 && TicksOf(deadlineNs, hz) < TWO64 && NsOf(counter, hz) < TWO64
    ensures deadlineNs <= Now(counter, hz) ==> Ticks(deadlineNs, hz) <= counter
    ensures Ticks(deadlineNs, hz) <= counter ==> deadlineNs <= Now(counter, hz) + TickNs(hz)
  {
    hide TicksOf, NsOf, TickNs;
    NoWrap(NsOf(counter, hz));
    NoWrap(TicksOf(deadlineNs, hz));
    if deadlineNs <= NsOf(counter, hz) {
      NeverLate(deadlineNs, counter, hz);
    }
    ShortByATick(deadlineNs, hz);
    if Ticks(deadlineNs, hz) <= counter {
      NsOrder(Ticks(deadlineNs, hz), counter, hz);
    }
  }

  lemma NsOrder(a: nat, b: nat, hz: nat)
    requires hz > 0 && a <= b
    ensures NsOf(a, hz) <= NsOf(b, hz)
  {
    MulOrder(a, b, BILLION);
    QuotientOrder(a * BILLION, b * BILLION, hz);
  }
}
