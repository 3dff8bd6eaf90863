/**
 * Time arithmetic of the gate scheduler: rational cycle times, the next start
 * at or after the current time, and the rule that splits long waits. All
 * intermediate results are u64 and wrap, as in the driver.
 */
module SchedTime {
  import opened Common
  import opened Arith

  const NSEC_PER_SEC: int := 1_000_000_000
  const MAX_DELAY: int := 64
  const MIN_ADVANCE: int := 32
  const START_SEC_RANGE: int := 256

  /** A normalised timespec64. */
  datatype Timespec = Timespec(sec: int, nsec: int) {
    predicate Valid() {
      0 <= nsec < NSEC_PER_SEC
    }

    function Ns(): int {
      sec * NSEC_PER_SEC + nsec
    }
  }

  /** A cycle time of num / denom seconds. */
  datatype Rational = Rational(num: u32, denom: u32) {
    predicate Valid() {
      num > 0 && denom > 0
    }
  }

  function U64(x: int): int {
    x % TWO64
  }

  /** set_normalized_timespec64 */
  function Normalized(sec: int, nsec: int): (r: Timespec)
    ensures r.Valid() && r.Ns() == sec * NSEC_PER_SEC + nsec
  {
    Timespec(sec + nsec / NSEC_PER_SEC, nsec % NSEC_PER_SEC)
  }

  function TimeSub(a: Timespec, b: Timespec): (r: Timespec)
    ensures r.Valid() && r.Ns() == a.Ns() - b.Ns()
  {
    Normalized(a.sec - b.sec, a.nsec - b.nsec)
  }

  function TimeAdd(a: Timespec, b: Timespec): (r: Timespec)
    ensures r.Valid() && r.Ns() == a.Ns() + b.Ns()
  {
    Normalized(a.sec + b.sec, a.nsec + b.nsec)
  }

  // ---------------------------------------------------------------- counting cycles

  /** edgx_sched_diff_to_cycles: seconds and nanoseconds are divided separately. */
  function DiffToCycles(begin: Timespec, end: Timespec, ct: Rational, roundUp: bool): int
    requires ct.Valid()
  {
    var delta := TimeSub(end, begin);
    var secs := U64(U64(delta.sec) * ct.denom);
    var nsecs := U64(delta.nsec * ct.denom);
    SumCycles(secs / ct.num, secs % ct.num, Recombined(nsecs, ct.num), ct.num, roundUp)
  }

  /** count_nsec * num + count_nsec_rem */
  function Recombined(x: int, num: int): int
    requires num > 0
  {
    x / num * num + x % num
  }

  /** count_sec plus the count that its remainder and the nanosecond part make together */
  function SumCycles(countSec: int, countSecRem: int, rest: int, num: int, roundUp: bool): int
    requires num > 0
  {
    var res0 := U64(countSecRem * NSEC_PER_SEC + rest);
    var res := if roundUp then U64(res0 + num * NSEC_PER_SEC - 1) else res0;
    U64(countSec + res / num / NSEC_PER_SEC)
  }

  /** delta / (num / denom), rounded; delta in nanoseconds. */
  function Cycles(deltaNs: int, ct: Rational, roundUp: bool): int
    requires ct.Valid()
  {
    var unit := ct.num * NSEC_PER_SEC;
    if roundUp then (deltaNs * ct.denom + unit - 1) / unit else deltaNs * ct.denom / unit
  }

  /** A value that a u64 holds. */
  predicate Fits(x: int) {
    0 <= x < TWO64
  }

  /** The sums that put the two parts of a count together stay within 64 bits. */
  predicate SumFits(q: int, r: int, rest: int, num: int, roundUp: bool)
    requires num > 0
  {
    var res0 := r * NSEC_PER_SEC + rest;
    var res := if roundUp then res0 + (num * NSEC_PER_SEC - 1) else res0;
    && Fits(r * NSEC_PER_SEC) && Fits(rest) && Fits(num * NSEC_PER_SEC - 1)
    && Fits(res0) && Fits(res) && Fits(q + res / num / NSEC_PER_SEC)
  }

  /** No product and no sum of edgx_sched_diff_to_cycles wraps. */
  predicate CountFitsIn64(delta: Timespec, ct: Rational, roundUp: bool)
    requires ct.Valid()
  {
    var secs, nsecs := delta.sec * ct.denom, delta.nsec * ct.denom;
    && Fits(delta.sec) && Fits(secs) && Fits(nsecs) && Fits(nsecs / ct.num * ct.num)
    && SumFits(secs / ct.num, secs % ct.num, Recombined(nsecs, ct.num), ct.num, roundUp)
  }

  /** Dividing a sum of whole seconds and a rest: the seconds first, then their remainder with the rest. */
  lemma SplitQuotient(s: int, rest: int, m: int)
    requires s >= 0 && rest >= 0 && m > 0
    ensures (s * NSEC_PER_SEC + rest) / (m * NSEC_PER_SEC) == s / m + (s % m * NSEC_PER_SEC + rest) / m / NSEC_PER_SEC
  {
    var q, r := s / m, s % m;
    var y := r * NSEC_PER_SEC + rest;
    var unit := m * NSEC_PER_SEC;
    assert s == q * m + r;
    assert s * NSEC_PER_SEC + rest == q * unit + y by {
      Distribute(q, m, r, NSEC_PER_SEC);
    }
    DivShift(y, q, unit);
    DivDiv(y, m, NSEC_PER_SEC);
  }

  lemma RecombinedIs(x: int, num: int)
    requires num > 0
    ensures Recombined(x, num) == x
  {
  }

  /** With a quotient q of the seconds and a rest y below b seconds, nothing wraps. */
  lemma SplitFits(q: int, y: int, num: int, b: int)
    requires num > 0 && 0 <= q && 0 <= b && q + b <= TWO64 && 0 <= y < b * NSEC_PER_SEC < TWO64
    ensures Fits(y) && Fits(q + y / num / NSEC_PER_SEC)
    ensures U64(y) == y && U64(q + y / num / NSEC_PER_SEC) == q + y / num / NSEC_PER_SEC >= 0
  {
    hide U64;
    QuotientBound(y, num);
    var t := y / num / NSEC_PER_SEC;
    InRange(y);
    InRange(q + t);
  }

  lemma SumCyclesExact(q: int, r: int, nsecs: int, num: int, roundUp: bool, b: int)
    requires 0 <= q && 0 <= r < num && 0 <= nsecs && 0 <= b && q + b <= TWO64
    requires var extra := if roundUp then num * NSEC_PER_SEC - 1 else 0;
             r * NSEC_PER_SEC + nsecs + extra < b * NSEC_PER_SEC < TWO64
    ensures var extra := if roundUp then num * NSEC_PER_SEC - 1 else 0;
            SumCycles(q, r, nsecs, num, roundUp) == q + (r * NSEC_PER_SEC + nsecs + extra) / num / NSEC_PER_SEC >= 0
  {
    hide U64;
    var y := r * NSEC_PER_SEC + nsecs;
    SplitFits(q, y, num, b);
    SplitFits(q, if roundUp then y + (num * NSEC_PER_SEC - 1) else y, num, b);
  }

  lemma SumsFit(q: int, r: int, nsecs: int, num: int, roundUp: bool, b: int)
    requires 0 <= q && 0 <= r < num < TWO32 && 0 <= nsecs && 0 <= b && q + b <= TWO64
    requires var extra := if roundUp then num * NSEC_PER_SEC - 1 else 0;
             r * NSEC_PER_SEC + nsecs + extra < b * NSEC_PER_SEC < TWO64
    ensures SumFits(q, r, nsecs, num, roundUp)
  {
    hide U64;
    var y := r * NSEC_PER_SEC + nsecs;
    var res := if roundUp then y + (num * NSEC_PER_SEC - 1) else y;
    SplitFits(q, res, num, b);
  }

  /** The split computation divides seconds and nanoseconds together, rounding as asked. */
  lemma SplitExact(secs: int, nsecs: int, num: int, roundUp: bool)
    requires 0 < num < TWO32 && 0 <= secs <= (TWO32 - 1) * (TWO32 - 1)
    requires 0 <= nsecs <= (NSEC_PER_SEC - 1) * (TWO32 - 1)
    ensures var extra := if roundUp then num * NSEC_PER_SEC - 1 else 0;
            SumCycles(secs / num, secs % num, Recombined(nsecs, num), num, roundUp)
            == (secs * NSEC_PER_SEC + nsecs + extra) / (num * NSEC_PER_SEC) >= 0
    ensures SumFits(secs / num, secs % num, Recombined(nsecs, num), num, roundUp)
  {
    hide SumCycles, Recombined, SumFits;
    RecombinedIs(nsecs, num);
    if num > 1 {
      HalfAtMost(secs, num);
    }
    SumCyclesExact(secs / num, secs % num, nsecs, num, roundUp, if num == 1 then TWO32 else 4 * TWO32);
    SumsFit(secs / num, secs % num, nsecs, num, roundUp, if num == 1 then TWO32 else 4 * TWO32);
    SplitQuotient(secs, if roundUp then nsecs + (num * NSEC_PER_SEC - 1) else nsecs, num);
  }

  lemma InRange(x: int)
    requires 0 <= x < TWO64
    ensures U64(x) == x
  {
  }

  /** The split computation is the exact quotient, and no intermediate value wraps, as long as the
      difference is below 2^32 seconds. */
  lemma DiffToCyclesExact(begin: Timespec, end: Timespec, ct: Rational, roundUp: bool)
    requires ct.Valid() && 0 <= TimeSub(end, begin).sec < TWO32
    ensures DiffToCycles(begin, end, ct, roundUp) == Cycles(end.Ns() - begin.Ns(), ct, roundUp)
    ensures 0 <= DiffToCycles(begin, end, ct, roundUp)
    ensures CountFitsIn64(TimeSub(end, begin), ct, roundUp)
  {
    hide SumCycles, Recombined, U64, SumFits;
    var delta := TimeSub(end, begin);
    var secs, nsecs := delta.sec * ct.denom, delta.nsec * ct.denom;
    MulLe(delta.sec, ct.denom, TWO32 - 1, TWO32 - 1);
    MulLe(delta.nsec, ct.denom, NSEC_PER_SEC - 1, TWO32 - 1);
    InRange(delta.sec);
    InRange(secs);
    InRange(nsecs);
    WholeUnits(nsecs, ct.num);
    SplitExact(secs, nsecs, ct.num, roundUp);
    ScaleNs(delta, ct.denom);
    assert end.Ns() - begin.Ns() == delta.Ns();
  }

  lemma WholeUnits(x: int, m: int)
    requires m > 0 && x >= 0
    ensures 0 <= x / m * m <= x
  {
    QuotientBound(x, m);
    MulMono(0, x / m, m);
  }

  lemma ScaleNs(t: Timespec, k: int)
    ensures t.Ns() * k == t.sec * k * NSEC_PER_SEC + t.nsec * k
  {
  }

  // ---------------------------------------------------------------- the next start time

  function S64(x: int): int {
    if x >= TWO64 / 2 then x - TWO64 else x
  }

  /** The advance of `count` cycle times, as seconds and truncated nanoseconds. */
  function Advance(count: int, ct: Rational): Timespec
    requires ct.Valid()
  {
    var num := U64(count * ct.num);
    Timespec(S64(num / ct.denom), U64(num % ct.denom * NSEC_PER_SEC) / ct.denom)
  }

  /** edgx_sched_calc_future_time */
  function FutureTime(inTime: Timespec, cur: Timespec, ct: Rational): (r: Timespec)
    requires ct.Valid()
    ensures r.Valid()
  {
    TimeAdd(inTime, Advance(DiffToCycles(inTime, cur, ct, true), ct))
  }

  /** Nanosecond at which cycle k of a schedule with this base time starts, truncated. */
  function CycleStart(base: Timespec, ct: Rational, k: int): int
    requires ct.Valid()
  {
    base.Ns() + k * ct.num * NSEC_PER_SEC / ct.denom
  }

  /** `t` is the first cycle start of the schedule, counted from its base time, that is not in the past. */
  ghost predicate IsNextStart(base: Timespec, cur: Timespec, ct: Rational, t: int)
    requires ct.Valid()
  {
    exists n: nat :: t == CycleStart(base, ct, n) >= cur.Ns()
                     && forall k :: 0 <= k < n ==> CycleStart(base, ct, k) < cur.Ns()
  }

  lemma CeilIs(x: int, u: int)
    requires u > 0 && x >= 0
    ensures var c := (x + u - 1) / u; c >= 0 && c * u >= x && (c - 1) * u < x
  {
    var c := (x + u - 1) / u;
    assert x + u - 1 == c * u + (x + u - 1) % u;
    Distribute(1, c, -1, u);
    MulMono(c, -1, u);
    assert (c - 1) * u == c * u - u;
  }

  /** floor(p * NSEC / d) out of the quotient and remainder of p / d. */
  lemma ScaledQuotient(p: int, d: int)
    requires p >= 0 && 0 < d < TWO32
    ensures 0 <= p % d * NSEC_PER_SEC < TWO64
    ensures 0 <= p % d * NSEC_PER_SEC / d < NSEC_PER_SEC
    ensures p / d * NSEC_PER_SEC + p % d * NSEC_PER_SEC / d == p * NSEC_PER_SEC / d
  {
    ScaleDiv(p, d, NSEC_PER_SEC);
    FractionBound(p % d, d, NSEC_PER_SEC);
  }

  /** An advance that fits in 64 bits is exact up to truncation to nanoseconds. */
  lemma AdvanceExact(count: int, ct: Rational)
    requires ct.Valid() && 0 <= count * ct.num < TWO64 && count * ct.num / ct.denom < TWO64 / 2
    ensures Advance(count, ct).Valid()
    ensures Advance(count, ct).Ns() == count * ct.num * NSEC_PER_SEC / ct.denom
    ensures Fits(count * ct.num % ct.denom * NSEC_PER_SEC)
  {
    hide U64;
    var p := count * ct.num;
    InRange(p);
    ScaledQuotient(p, ct.denom);
    InRange(p % ct.denom * NSEC_PER_SEC);
  }

  /** The least number c of units of m seconds whose nanoseconds reach x. */
  lemma CeilUnits(x: int, m: int)
    requires m > 0 && x >= 0
    ensures var c := (x + m * NSEC_PER_SEC - 1) / (m * NSEC_PER_SEC);
            c >= 0 && 0 <= c * m && x <= c * m * NSEC_PER_SEC < x + m * NSEC_PER_SEC
  {
    var unit := m * NSEC_PER_SEC;
    CeilIs(x, unit);
    var c := (x + unit - 1) / unit;
    assert c * unit == c * m * NSEC_PER_SEC;
    assert (c - 1) * unit == c * unit - unit by {
      Distribute(1, c, -1, unit);
    }
    MulMono(0, c, m);
  }

  lemma ProductFits(p: int, d: int, m: int)
    requires 0 < d < TWO32 && 0 < m < TWO32 && 0 <= p < TWO32 * d + m
    ensures p < TWO64 && p / d < TWO64 / 2
  {
    var q := p / d;
    assert p == q * d + p % d;
    MulMono(2 * TWO32, q, d);
  }

  /** For differences below 2^32 seconds the counted cycles times their numerator stay below 2^64. */
  lemma CountFits(delta: int, ct: Rational)
    requires ct.Valid() && 0 <= delta < TWO32 * NSEC_PER_SEC
    ensures var p := Cycles(delta, ct, true) * ct.num;
            && Cycles(delta, ct, true) >= 0 && 0 <= p < TWO64 && p / ct.denom < TWO64 / 2
            && delta * ct.denom <= p * NSEC_PER_SEC < delta * ct.denom + ct.num * NSEC_PER_SEC
  {
    MulMono(0, delta, ct.denom);
    MulMono(delta, TWO32 * NSEC_PER_SEC - 1, ct.denom);
    CeilUnits(delta * ct.denom, ct.num);
    ProductFits(Cycles(delta, ct, true) * ct.num, ct.denom, ct.num);
  }

  /** The truncated start of cycle k is at or after a time delta later exactly when k exact cycles cover delta. */
  lemma CycleReaches(base: Timespec, ct: Rational, k: int, delta: int)
    requires ct.Valid()
    ensures CycleStart(base, ct, k) >= base.Ns() + delta <==> k * ct.num * NSEC_PER_SEC >= delta * ct.denom
  {
    FloorReaches(k * ct.num * NSEC_PER_SEC, ct.denom, delta);
  }

  /** The computed time is the next cycle start. In particular truncating to nanoseconds never
      yields a start in the past (List Config, section 8.6.9.3 of IEEE Std 802.1Q-2018). */
  lemma FutureTimeIsNextStart(base: Timespec, cur: Timespec, ct: Rational)
    requires ct.Valid() && base.Valid() && cur.Valid()
    requires 0 <= cur.Ns() - base.Ns() < TWO32 * NSEC_PER_SEC
    ensures IsNextStart(base, cur, ct, FutureTime(base, cur, ct).Ns())
  {
    hide DiffToCycles, CycleStart, Cycles, Advance;
    var delta := cur.Ns() - base.Ns();
    DiffToCyclesExact(base, cur, ct, true);
    CountFits(delta, ct);
    var n := Cycles(delta, ct, true);
    AdvanceExact(n, ct);
    CycleReaches(base, ct, n, delta);
    FutureIsCycle(base, ct, n);
    forall k | 0 <= k < n
      ensures CycleStart(base, ct, k) < cur.Ns()
    {
      CycleReaches(base, ct, k, delta);
      MulMono(k, n - 1, ct.num);
      assert (n - 1) * ct.num == n * ct.num - ct.num by {
        Distribute(1, n, -1, ct.num);
      }
    }
  }

  /** On the way to the next start nothing wraps, neither in the count nor in the advance. */
  lemma FutureTimeFits(base: Timespec, cur: Timespec, ct: Rational)
    requires ct.Valid() && base.Valid() && cur.Valid()
    requires 0 <= cur.Ns() - base.Ns() < TWO32 * NSEC_PER_SEC
    ensures CountFitsIn64(TimeSub(cur, base), ct, true)
    ensures var n := DiffToCycles(base, cur, ct, true); Fits(n * ct.num) && Fits(n * ct.num % ct.denom * NSEC_PER_SEC)
  {
    hide DiffToCycles, Cycles, Advance, CountFitsIn64;
    DiffToCyclesExact(base, cur, ct, true);
    CountFits(cur.Ns() - base.Ns(), ct);
    AdvanceExact(Cycles(cur.Ns() - base.Ns(), ct, true), ct);
  }

  lemma FutureIsCycle(base: Timespec, ct: Rational, n: int)
    requires ct.Valid() && base.Valid() && Advance(n, ct).Valid()
    requires Advance(n, ct).Ns() == n * ct.num * NSEC_PER_SEC / ct.denom
    ensures TimeAdd(base, Advance(n, ct)).Ns() == CycleStart(base, ct, n)
  {
  }

  /** The 64-bit arithmetic is safe for every cycle time exactly when the base time is less than 2^32
      seconds back: from there on some cycle time makes a product wrap and the start lies in the past. */
  lemma FutureTimeSafeIff(secs: nat)
    ensures (forall base: Timespec, cur: Timespec, ct: Rational ::
               base.Valid() && cur.Valid() && ct.Valid() && TimeSub(cur, base).sec == secs ==>
                 FutureTime(base, cur, ct).Ns() >= cur.Ns())
            <==> secs < TWO32
  {
    if secs < TWO32 {
      forall base: Timespec, cur: Timespec, ct: Rational
        | base.Valid() && cur.Valid() && ct.Valid() && TimeSub(cur, base).sec == secs
        ensures FutureTime(base, cur, ct).Ns() >= cur.Ns()
      {
        FutureTimeIsNextStart(base, cur, ct);
      }
    } else {
      var base, cur := Timespec(0, 0), Timespec(secs, NSEC_PER_SEC - 1);
      var ct := Rational(100, TWO32 - 1);
      assert TimeSub(cur, base).sec == secs;
      if secs <= TWO32 + 1 {
        WrappedAdvance(secs);
      } else {
        AdvanceBound(DiffToCycles(base, cur, ct, true), ct);
      }
      assert FutureTime(base, cur, ct).Ns() < cur.Ns();
    }
  }

  lemma AdvanceBound(count: int, ct: Rational)
    requires ct.Valid() && ct.denom == TWO32 - 1
    ensures Advance(count, ct).Ns() < (TWO32 + 2) * NSEC_PER_SEC
  {
  }

  /** At 2^32 seconds and one more, with a cycle of 100 / (2^32 - 1) seconds, the count times the
      numerator exceeds 2^64 and wraps: the advance is below two seconds. */
  lemma WrappedAdvance(secs: nat)
    requires secs == TWO32 || secs == TWO32 + 1
    ensures var base, cur := Timespec(0, 0), Timespec(secs, NSEC_PER_SEC - 1);
            FutureTime(base, cur, Rational(100, TWO32 - 1)).Ns() < 2 * NSEC_PER_SEC
  {
    hide DiffToCycles, Advance;
    WrappedCount(secs);
    var count := if secs == TWO32 then 184467440737095517 else 184467440780045190;
    assert Advance(count, Rational(100, TWO32 - 1)).Ns() < 2 * NSEC_PER_SEC by {
      WrappedProduct(count);
    }
  }

  lemma WrappedSeconds(secs: nat)
    requires secs == TWO32 || secs == TWO32 + 1
    ensures var s := U64(U64(secs) * (TWO32 - 1));
            s / 100 == (if secs == TWO32 then 184467440694145843 else 184467440737095516) &&
            s % 100 == (if secs == TWO32 then 20 else 15)
  {
  }

  lemma WrappedNanoseconds()
    ensures U64((NSEC_PER_SEC - 1) * (TWO32 - 1)) == (NSEC_PER_SEC - 1) * (TWO32 - 1)
    ensures Recombined((NSEC_PER_SEC - 1) * (TWO32 - 1), 100) == (NSEC_PER_SEC - 1) * (TWO32 - 1)
  {
  }

  lemma WrappedSum(q: nat, r: nat)
    requires r < 100 && q < TWO64 / 2
    ensures SumCycles(q, r, (NSEC_PER_SEC - 1) * (TWO32 - 1), 100, true)
            == q + (r * NSEC_PER_SEC + (NSEC_PER_SEC - 1) * (TWO32 - 1) + 100 * NSEC_PER_SEC - 1) / 100 / NSEC_PER_SEC
  {
  }

  lemma WrappedCount(secs: nat)
    requires secs == TWO32 || secs == TWO32 + 1
    ensures DiffToCycles(Timespec(0, 0), Timespec(secs, NSEC_PER_SEC - 1), Rational(100, TWO32 - 1), true)
            == if secs == TWO32 then 184467440737095517 else 184467440780045190
  {
    hide U64, SumCycles, Recombined;
    assert TimeSub(Timespec(secs, NSEC_PER_SEC - 1), Timespec(0, 0)) == Timespec(secs, NSEC_PER_SEC - 1);
    WrappedSeconds(secs);
    WrappedNanoseconds();
    var s := U64(U64(secs) * (TWO32 - 1));
    WrappedSum(s / 100, s % 100);
  }

  lemma WrappedProduct(count: nat)
    requires count == 184467440737095517 || count == 184467440780045190
    ensures Advance(count, Rational(100, TWO32 - 1)).Ns() < 2 * NSEC_PER_SEC
  {
    assert U64(count * 100) == if count == 184467440737095517 then 84 else TWO32 + 88;
  }

  // ---------------------------------------------------------------- config change time and delay

  /** The part of edgx_sched_calc_cc_time that decides how many seconds to wait before submitting. */
  function DelaySec(diff: int): int {
    if diff > MAX_DELAY then
      if diff - MIN_ADVANCE < MAX_DELAY then diff - MIN_ADVANCE else MAX_DELAY
    else 0
  }

  /** The lead that is left once the rule asks for no further wait. */
  function LeadAfterWaits(lead: int): int
    decreases lead
  {
    if DelaySec(lead) == 0 then lead else LeadAfterWaits(lead - DelaySec(lead))
  }

  /** A long lead shrinks to between 32 and 64 seconds, in waits of at most 64 seconds, and no wait
      overshoots. */
  lemma {:induction false} WaitsConverge(lead: int)
    requires lead > MAX_DELAY
    ensures 0 < DelaySec(lead) <= MAX_DELAY && lead - DelaySec(lead) >= MIN_ADVANCE
    ensures MIN_ADVANCE <= LeadAfterWaits(lead) <= MAX_DELAY
    ensures (lead - LeadAfterWaits(lead)) >= 0
  {
    var rest := lead - DelaySec(lead);
    if rest > MAX_DELAY {
      WaitsConverge(rest);
    }
  }

  /** The second a reader of the 8-bit field takes for the start, knowing the current second. */
  function StartFromField(curSec: int, field: int): int {
    curSec + (field - curSec) % START_SEC_RANGE
  }

  /** Once the waits are over, the 8-bit seconds field identifies the start second. */
  lemma FieldIdentifiesStart(curSec: int, startSec: int)
    requires startSec - curSec > MAX_DELAY
    ensures var now := startSec - LeadAfterWaits(startSec - curSec);
            now >= curSec && StartFromField(now, startSec % START_SEC_RANGE) == startSec
  {
    WaitsConverge(startSec - curSec);
  }

  /** Where a wait is not needed the 8-bit seconds field identifies the start second exactly if that is
      not before the current second. */
  lemma FieldOnSubmission(curSec: int, startSec: int)
    requires DelaySec(startSec - curSec) == 0
    ensures StartFromField(curSec, startSec % START_SEC_RANGE) == startSec <==> curSec <= startSec
  {
  }

  datatype CcTime = CcTime(ccTime: Timespec, start: Timespec, delay: int, inPast: bool)

  predicate NotAfter(a: Timespec, b: Timespec) {
    a.sec < b.sec || (a.sec == b.sec && a.nsec <= b.nsec)
  }

  /** edgx_sched_calc_cc_time, with the current time as a parameter. */
  function CalcCcTime(base: Timespec, cur: Timespec, ct: Rational, offset: int): CcTime
    requires ct.Valid()
  {
    var inPast := NotAfter(base, cur);
    var ccTime := if inPast then FutureTime(base, cur, ct) else base;
    var start := Normalized(ccTime.sec, ccTime.nsec + offset);
    CcTime(ccTime, start, DelaySec(start.sec - cur.sec), inPast)
  }

  lemma StartIsOffset(base: Timespec, cur: Timespec, ct: Rational, offset: int)
    requires ct.Valid()
    ensures var c := CalcCcTime(base, cur, ct, offset); c.start.Ns() == c.ccTime.Ns() + offset && c.delay >= 0
  {
  }

  /** The change time is the base time when that lies ahead and the next cycle start otherwise; the
      hardware start differs from it by the offset, and a wait ends at least 32 seconds early. */
  lemma CcTimeIsNextStart(base: Timespec, cur: Timespec, ct: Rational, offset: int)
    requires ct.Valid() && base.Valid() && cur.Valid() && cur.Ns() - base.Ns() < TWO32 * NSEC_PER_SEC
    ensures var c := CalcCcTime(base, cur, ct, offset);
            && c.ccTime.Ns() >= cur.Ns()
            && (if base.Ns() > cur.Ns() then c.ccTime.Ns() == base.Ns() else IsNextStart(base, cur, ct, c.ccTime.Ns()))
            && c.start.Valid() && c.start.Ns() == c.ccTime.Ns() + offset
            && c.delay >= 0
            && (c.delay > 0 ==> c.start.sec - (cur.sec + c.delay) >= MIN_ADVANCE)
            && (c.delay == 0 ==> c.start.sec - cur.sec <= MAX_DELAY)
  {
    hide FutureTime, IsNextStart;
    if NotAfter(base, cur) {
      FutureTimeIsNextStart(base, cur, ct);
      NextStartNotPast(base, cur, ct, FutureTime(base, cur, ct).Ns());
    }
  }

  lemma NextStartNotPast(base: Timespec, cur: Timespec, ct: Rational, t: int)
    requires ct.Valid() && IsNextStart(base, cur, ct, t)
    ensures t >= cur.Ns()
  {
  }

  /** For a schedule that is submitted at once the field is right exactly if change time and offset lie
      at or after the full second of the current time. */
  lemma SubmittedField(base: Timespec, cur: Timespec, ct: Rational, offset: int)
    requires ct.Valid() && CalcCcTime(base, cur, ct, offset).delay == 0
    ensures var c := CalcCcTime(base, cur, ct, offset);
            StartFromField(cur.sec, c.start.sec % START_SEC_RANGE) == c.start.sec
            <==> c.ccTime.Ns() + offset >= cur.sec * NSEC_PER_SEC
  {
    hide FutureTime, NotAfter;
    var c := CalcCcTime(base, cur, ct, offset);
    FieldOnSubmission(cur.sec, c.start.sec);
    StartIsOffset(base, cur, ct, offset);
  }

  /** A negative offset can put the start into the second before the current one: the field then names a
      second more than four minutes ahead. */
  lemma FieldMissesPastStart(ct: Rational)
    requires ct.Valid()
    ensures var c := CalcCcTime(Timespec(10, 500), Timespec(10, 400), ct, -1000);
            c.delay == 0 && c.start.sec == 9 && StartFromField(10, c.start.sec % START_SEC_RANGE) == 265
  {
  }

  // ---------------------------------------------------------------- cycle time in nanoseconds

  datatype Nsec = Nsec(nsec: int, subnsec: int)

  /** edgx_sched_rational_to_nsec */
  function RationalToNsec(rat: Rational): Nsec
    requires rat.denom > 0
  {
    var sec, rem := rat.num / rat.denom, rat.num % rat.denom;
    var n := U64(rem * NSEC_PER_SEC);
    Nsec(U64(n / rat.denom + sec * NSEC_PER_SEC), U64(n % rat.denom * TWO32) / rat.denom)
  }

  /** The two results are the cycle time in units of 2^-32 nanoseconds, truncated; the second is a u32. */
  lemma RationalToNsecExact(rat: Rational)
    requires rat.denom > 0
    ensures var r := RationalToNsec(rat);
            r.nsec == rat.num * NSEC_PER_SEC / rat.denom && 0 <= r.subnsec < TWO32
            && r.nsec * TWO32 + r.subnsec == rat.num * NSEC_PER_SEC * TWO32 / rat.denom
  {
    hide U64;
    var d, n := rat.denom, rat.num % rat.denom * NSEC_PER_SEC;
    ScaledQuotient(rat.num, d);
    QuotientBound(rat.num, d);
    InRange(n);
    InRange(n / d + rat.num / d * NSEC_PER_SEC);
    InRange(n % d * TWO32);
    ScaleDiv(rat.num, d, NSEC_PER_SEC);
    ScaleDiv(rat.num * NSEC_PER_SEC, d, TWO32);
    FractionBound(n % d, d, TWO32);
  }
}
