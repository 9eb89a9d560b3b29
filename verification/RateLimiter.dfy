/**
 * The fixed-window limiter for one source: what it admits over any interval of
 * any run, exactly.
 */
module RateLimiter {
  import opened Options
  import opened Numbers

  const RATE_WINDOW_NS: nat := 1_000_000_000
  const RATE_MAX_PER_WIN: nat := 50

  datatype RateEntry = RateEntry(windowStart: nat, count: nat)

  /** `now - e->window_start_ns > RATE_WINDOW_NS` in 64-bit unsigned arithmetic. */
  predicate WindowOver(e: RateEntry, now: nat) {
    (now - e.windowStart) % TWO64 > RATE_WINDOW_NS
  }

  /** The entry after a packet is accounted; `count` is a 32-bit counter. */
  function Account(e: Option<RateEntry>, now: nat): RateEntry {
    if e.None? || WindowOver(e.value, now) then RateEntry(now, 1)
    else e.value.(count := (e.value.count + 1) % TWO32)
  }

  /** Whether that packet must be dropped. */
  predicate Limited(e: Option<RateEntry>, now: nat) {
    e.Some? && !WindowOver(e.value, now) && Account(e, now).count > RATE_MAX_PER_WIN
  }

  // ----- runs of one source, as the sequence of its arrival times -----

  /** The entry after all packets. */
  function Entry(times: seq<nat>): (e: Option<RateEntry>)
    ensures e.None? <==> times == []
  {
    if times == [] then None
    else Some(Account(Entry(times[..|times| - 1]), times[|times| - 1]))
  }

  predicate Admitted(times: seq<nat>, i: nat)
    requires i < |times|
  {
    !Limited(Entry(times[..i]), times[i])
  }

  function One(b: bool): nat {
    if b then 1 else 0
  }

  /** Number of arrivals in the closed interval [a, b]. */
  function ArrivalsIn(times: seq<nat>, a: int, b: int): (n: nat)
    ensures n <= |times|
  {
    if times == [] then 0
    else ArrivalsIn(times[..|times| - 1], a, b) + One(a <= times[|times| - 1] <= b)
  }

  /** Arrivals in the closed interval of one window length from `a`. */
  function WindowArrivals(times: seq<nat>, a: nat): nat {
    ArrivalsIn(times, a, a + RATE_WINDOW_NS)
  }

  /** Number of admitted packets in the closed interval [a, b]. */
  function AdmittedIn(times: seq<nat>, a: int, b: int): nat {
    if times == [] then 0
    else
      var n := |times| - 1;
      AdmittedIn(times[..n], a, b) + One(a <= times[n] <= b && !Limited(Entry(times[..n]), times[n]))
  }

  /** A clock that never goes back and never wraps. */
  ghost predicate MonotoneClock(times: seq<nat>) {
    && (forall i, j :: 0 <= i < j < |times| ==> times[i] <= times[j])
    && (forall i :: 0 <= i < |times| ==> times[i] < TWO64)
  }

  /** No window sees 2^32 packets. */
  ghost predicate CounterFits(times: seq<nat>) {
    forall a: nat :: WindowArrivals(times, a) < TWO32
  }

  lemma {:induction false} ArrivalsGrow(times: seq<nat>, k: nat, a: int, b: int)
    requires k <= |times|
    ensures ArrivalsIn(times[..k], a, b) <= ArrivalsIn(times, a, b)
  {
    if k == |times| {
      assert times[..k] == times;
    } else {
      var init := times[..|times| - 1];
      ArrivalsGrow(init, k, a, b);
      assert init[..k] == times[..k];
    }
  }

  lemma PrefixesFit(times: seq<nat>, k: nat)
    requires MonotoneClock(times) && CounterFits(times) && k <= |times|
    ensures MonotoneClock(times[..k]) && CounterFits(times[..k])
  {
    forall a: nat
      ensures WindowArrivals(times[..k], a) < TWO32
    {
      ArrivalsGrow(times, k, a, a + RATE_WINDOW_NS);
      assert WindowArrivals(times, a) < TWO32;
    }
  }

  lemma {:induction false} NoArrivalsAfter(times: seq<nat>, a: int, b: int)
    requires forall i :: 0 <= i < |times| ==> times[i] < a
    ensures ArrivalsIn(times, a, b) == 0 && AdmittedIn(times, a, b) == 0
  {
    if times != [] {
      NoArrivalsAfter(times[..|times| - 1], a, b);
    }
  }

  lemma ElapsedIsExact(e: RateEntry, now: nat)
    requires e.windowStart <= now < TWO64
    ensures WindowOver(e, now) <==> now - e.windowStart > RATE_WINDOW_NS
  {
    assert (now - e.windowStart) % TWO64 == now - e.windowStart;
  }

  /** The entry counts exactly the arrivals of its window, which one of them opened. */
  ghost predicate CountsItsWindow(times: seq<nat>, e: RateEntry)
    requires times != []
  {
    && e.windowStart in times
    && e.windowStart <= times[|times| - 1] <= e.windowStart + RATE_WINDOW_NS
    && 1 <= e.count == WindowArrivals(times, e.windowStart)
  }

  lemma CountingStep(times: seq<nat>, e: RateEntry)
    requires MonotoneClock(times) && CounterFits(times) && |times| > 1
    requires CountsItsWindow(times[..|times| - 1], e)
    ensures CountsItsWindow(times, Account(Some(e), times[|times| - 1]))
  {
    var n := |times| - 1;
    var before, now := times[..n], times[n];
    assert before[n - 1] == times[n - 1] <= now;
    assert e.windowStart in times;
    ElapsedIsExact(e, now);
    if WindowOver(e, now) {
      NoArrivalsAfter(before, now, now + RATE_WINDOW_NS);
    } else {
      assert WindowArrivals(times, e.windowStart) == e.count + 1;
    }
  }

  lemma {:induction false} EntryCountsItsWindow(times: seq<nat>)
    requires MonotoneClock(times) && CounterFits(times) && times != []
    ensures CountsItsWindow(times, Entry(times).value)
  {
    var n := |times| - 1;
    if n == 0 {
      assert times[..0] == [];
    } else {
      PrefixesFit(times, n);
      EntryCountsItsWindow(times[..n]);
      CountingStep(times, Entry(times[..n]).value);
    }
  }

  /** A packet is admitted exactly when its window has held at most 50 arrivals so far, itself included. */
  lemma AdmittedExactly(times: seq<nat>, i: nat)
    requires MonotoneClock(times) && CounterFits(times) && i < |times|
    ensures var start := Entry(times[..i + 1]).value.windowStart;
            && start in times[..i + 1] && start <= times[i] <= start + RATE_WINDOW_NS
            && (Admitted(times, i) <==> WindowArrivals(times[..i + 1], start) <= RATE_MAX_PER_WIN)
  {
    PrefixesFit(times, i + 1);
    EntryCountsItsWindow(times[..i + 1]);
    assert times[..i + 1][..i] == times[..i];
    if i > 0 {
      PrefixesFit(times, i);
      EntryCountsItsWindow(times[..i]);
    }
  }

  /** Every drop has a witness: an interval opened by a window start that holds more than 50 arrivals. */
  lemma DropHasWitness(times: seq<nat>, i: nat)
    requires MonotoneClock(times) && CounterFits(times) && i < |times|
    requires !Admitted(times, i)
    ensures exists start: nat :: start in times && start <= times[i] <= start + RATE_WINDOW_NS
              && WindowArrivals(times, start) > RATE_MAX_PER_WIN
  {
    AdmittedExactly(times, i);
    var start := Entry(times[..i + 1]).value.windowStart;
    ArrivalsGrow(times, i + 1, start, start + RATE_WINDOW_NS);
    assert start in times && WindowArrivals(times, start) > RATE_MAX_PER_WIN;
  }

  /** No false drops: a source that never exceeds 50 arrivals in a closed window length is never dropped. */
  lemma NoFalseDrops(times: seq<nat>, i: nat)
    requires MonotoneClock(times) && i < |times|
    requires forall a: nat :: WindowArrivals(times, a) <= RATE_MAX_PER_WIN
    ensures Admitted(times, i)
  {
    if !Admitted(times, i) {
      DropHasWitness(times, i);
    }
  }

  // ----- the most that any interval of length T can admit -----

  const STRIDE: nat := RATE_WINDOW_NS + 1

  /** Windows that can start in the interval, plus what is left of one that started just before it. */
  function MaxAdmitted(span: nat): nat {
    RATE_MAX_PER_WIN * (span / STRIDE + 1) + if span % STRIDE == 0 then 0 else RATE_MAX_PER_WIN - 1
  }

  /** The bound in numbers. */
  lemma BoundInNumbers(span: nat)
    ensures MaxAdmitted(span) == 50 * (span / 1_000_000_001 + 1) + if span % 1_000_000_001 == 0 then 0 else 49
  {
  }

  function Capped(count: nat): nat {
    if count < RATE_MAX_PER_WIN then count else RATE_MAX_PER_WIN
  }

  /**
   * `pre` packets came from a window opened before `a`, and `full` windows
   * opened in the interval lie before the current one.
   */
  ghost predicate Tally(times: seq<nat>, a: nat, span: nat, pre: nat, full: nat) {
    var n := AdmittedIn(times, a, a + span);
    match Entry(times)
    case None => n == 0 && pre == 0 && full == 0
    case Some(e) =>
      if e.windowStart < a then
        n == pre <= Capped(e.count) - 1 && full == 0
      else if e.windowStart <= a + span then
        && n <= pre + RATE_MAX_PER_WIN * full + Capped(e.count)
        && pre < RATE_MAX_PER_WIN
        && a + One(pre > 0) + STRIDE * full <= e.windowStart
      else
        && pre < RATE_MAX_PER_WIN
        && (n == pre || (n <= pre + RATE_MAX_PER_WIN * (full + 1) && One(pre > 0) + STRIDE * full <= span))
  }

  lemma {:induction false} TallyKept(times: seq<nat>, a: nat, span: nat) returns (pre: nat, full: nat)
    requires MonotoneClock(times) && CounterFits(times)
    ensures Tally(times, a, span, pre, full)
    ensures (forall t :: t in times ==> a <= t) ==> pre == 0
  {
    if times == [] {
      pre, full := 0, 0;
    } else {
      var k := |times| - 1;
      PrefixesFit(times, k);
      assert forall t :: t in times[..k] ==> t in times;
      pre, full := TallyKept(times[..k], a, span);
      if k == 0 {
        TallyOpens(times, a, span);
      } else {
        EntryCountsItsWindow(times[..k]);
        EntryCountsItsWindow(times);
        pre, full := TallyStep(times, a, span, pre, full, Entry(times[..k]).value);
      }
    }
  }

  lemma TallyOpens(times: seq<nat>, a: nat, span: nat)
    requires |times| == 1
    ensures Tally(times, a, span, 0, 0)
  {
    assert times[..0] == [];
  }

  lemma TallyStep(times: seq<nat>, a: nat, span: nat, pre: nat, full: nat, e: RateEntry) returns (pre': nat, full': nat)
    requires MonotoneClock(times) && |times| > 1
    requires Entry(times[..|times| - 1]) == Some(e)
    requires CountsItsWindow(times[..|times| - 1], e) && CountsItsWindow(times, Entry(times).value)
    requires Tally(times[..|times| - 1], a, span, pre, full)
    ensures Tally(times, a, span, pre', full')
    ensures pre' == pre || exists t :: t in times && t < a
  {
    var k := |times| - 1;
    var before, now := times[..k], times[k];
    assert before[k - 1] == times[k - 1] <= now;
    ElapsedIsExact(e, now);
    pre', full' := pre, full;
    if e.windowStart < a {
      assert e.windowStart in times;
      pre' := TallyFromBefore(times, a, span, pre, e);
    } else if e.windowStart <= a + span {
      if WindowOver(e, now) && now <= a + span {
        full' := full + 1;
      }
    }
  }

  lemma TallyFromBefore(times: seq<nat>, a: nat, span: nat, pre: nat, e: RateEntry) returns (pre': nat)
    requires MonotoneClock(times) && |times| > 1
    requires Entry(times[..|times| - 1]) == Some(e)
    requires CountsItsWindow(times[..|times| - 1], e) && CountsItsWindow(times, Entry(times).value)
    requires Tally(times[..|times| - 1], a, span, pre, 0) && e.windowStart < a
    ensures Tally(times, a, span, pre', 0)
  {
    var k := |times| - 1;
    var before, now := times[..k], times[k];
    assert before[k - 1] == times[k - 1] <= now;
    ElapsedIsExact(e, now);
    pre' := pre;
    if !WindowOver(e, now) {
      pre' := AdmittedIn(times, a, a + span);
    } else if before[k - 1] < a {
      NoArrivalsAfter(before, a, a + span);
    }
  }

  /** In every run, any closed interval [a, b] admits at most MaxAdmitted(b - a) packets of a source. */
  lemma AdmissionBound(times: seq<nat>, a: nat, b: nat)
    requires MonotoneClock(times) && CounterFits(times) && a <= b
    ensures AdmittedIn(times, a, b) <= MaxAdmitted(b - a)
  {
    var pre, full := TallyKept(times, a, b - a);
  }

  /** One window length: at most 2 * 50 - 1. */
  lemma WindowBound(times: seq<nat>, a: nat)
    requires MonotoneClock(times) && CounterFits(times)
    ensures AdmittedIn(times, a, a + RATE_WINDOW_NS) <= 99
  {
    AdmissionBound(times, a, a + RATE_WINDOW_NS);
  }

  /** A whole run of length `span` admits at most 50 packets for each window that fits. */
  lemma RunBound(times: seq<nat>, span: nat)
    requires MonotoneClock(times) && CounterFits(times) && times != []
    ensures AdmittedIn(times, times[0], times[0] + span) <= RATE_MAX_PER_WIN * (span / STRIDE + 1)
  {
    var pre, full := TallyKept(times, times[0], span);
  }

  // ----- the bound is reached -----

  /** `k` more packets at time `t`. */
  function More(times: seq<nat>, t: nat, k: nat): seq<nat> {
    times + seq(k, i => t)
  }

  lemma MoreByOne(times: seq<nat>, t: nat, k: nat)
    requires k > 0
    ensures More(times, t, k) == More(times, t, k - 1) + [t]
    ensures More(times, t, k) == More(times + [t], t, k - 1)
  {
  }

  lemma Appended(times: seq<nat>, t: nat, a: int, b: int)
    ensures Entry(times + [t]) == Some(Account(Entry(times), t))
    ensures ArrivalsIn(times + [t], a, b) == ArrivalsIn(times, a, b) + One(a <= t <= b)
    ensures AdmittedIn(times + [t], a, b) == AdmittedIn(times, a, b) + One(a <= t <= b && !Limited(Entry(times), t))
  {
    assert (times + [t])[..|times|] == times;
  }

  /** `n` full windows, one stride apart. */
  function Blocks(times: seq<nat>, start: nat, n: nat): seq<nat> {
    if n == 0 then times else More(Blocks(times, start, n - 1), start + STRIDE * (n - 1), RATE_MAX_PER_WIN)
  }

  /** The run that admits most in an interval of length `span`, and where that interval starts. */
  function BusiestRun(span: nat): seq<nat> {
    if span % STRIDE == 0 then Blocks([], 0, span / STRIDE + 1)
    else Blocks(More([0], RATE_WINDOW_NS, RATE_MAX_PER_WIN - 1), STRIDE, span / STRIDE + 1)
  }

  function BusiestStart(span: nat): nat {
    if span % STRIDE == 0 then 0 else RATE_WINDOW_NS
  }

  /** More packets in the current window, up to its fiftieth, are all admitted. */
  lemma {:induction false} MoreInWindow(times: seq<nat>, t: nat, k: nat, e: RateEntry, a: nat, b: nat)
    requires Entry(times) == Some(e) && e.windowStart <= t <= e.windowStart + RATE_WINDOW_NS && t < TWO64
    requires e.count + k <= RATE_MAX_PER_WIN && a <= t <= b
    ensures Entry(More(times, t, k)) == Some(RateEntry(e.windowStart, e.count + k))
    ensures AdmittedIn(More(times, t, k), a, b) == AdmittedIn(times, a, b) + k
  {
    if k == 0 {
      assert More(times, t, 0) == times;
    } else {
      var before, now := More(times, t, k - 1), RateEntry(e.windowStart, e.count + k - 1);
      MoreByOne(times, t, k);
      MoreInWindow(times, t, k - 1, e, a, b);
      OneInWindow(before, t, now, a, b);
      assert More(times, t, k) == before + [t];
    }
  }

  lemma OneInWindow(times: seq<nat>, t: nat, e: RateEntry, a: nat, b: nat)
    requires Entry(times) == Some(e) && e.windowStart <= t <= e.windowStart + RATE_WINDOW_NS && t < TWO64
    requires e.count < RATE_MAX_PER_WIN && a <= t <= b
    ensures Entry(times + [t]) == Some(RateEntry(e.windowStart, e.count + 1))
    ensures AdmittedIn(times + [t], a, b) == AdmittedIn(times, a, b) + 1
  {
    ElapsedIsExact(e, t);
    Appended(times, t, a, b);
  }

  /** Fifty packets after the current window are all admitted. */
  lemma FullWindow(times: seq<nat>, t: nat, a: nat, b: nat)
    requires times == [] || Entry(times).value.windowStart + RATE_WINDOW_NS < t
    requires t < TWO64 && a <= t <= b
    ensures Entry(More(times, t, RATE_MAX_PER_WIN)) == Some(RateEntry(t, RATE_MAX_PER_WIN))
    ensures AdmittedIn(More(times, t, RATE_MAX_PER_WIN), a, b) == AdmittedIn(times, a, b) + RATE_MAX_PER_WIN
  {
    if times != [] {
      ElapsedIsExact(Entry(times).value, t);
    }
    Appended(times, t, a, b);
    MoreInWindow(times + [t], t, RATE_MAX_PER_WIN - 1, RateEntry(t, 1), a, b);
    MoreByOne(times, t, RATE_MAX_PER_WIN);
  }

  lemma {:induction false} BlocksAdmitted(times: seq<nat>, start: nat, n: nat, a: nat, b: nat)
    requires times == [] || Entry(times).value.windowStart + RATE_WINDOW_NS < start
    requires n > 0 ==> a <= start && start + STRIDE * (n - 1) <= b < TWO64
    ensures AdmittedIn(Blocks(times, start, n), a, b) == AdmittedIn(times, a, b) + RATE_MAX_PER_WIN * n
    ensures n > 0 ==> Entry(Blocks(times, start, n)) == Some(RateEntry(start + STRIDE * (n - 1), RATE_MAX_PER_WIN))
  {
    if n > 0 {
      var before, t := Blocks(times, start, n - 1), start + STRIDE * (n - 1);
      BlocksAdmitted(times, start, n - 1, a, b);
      assert n > 1 ==> Entry(before).value.windowStart + STRIDE == t;
      FullWindow(before, t, a, b);
    }
  }

  lemma MoreKeepsClock(times: seq<nat>, t: nat, k: nat)
    requires MonotoneClock(times) && (forall x :: x in times ==> x <= t) && t < TWO64
    ensures MonotoneClock(More(times, t, k)) && (forall x :: x in More(times, t, k) ==> x <= t)
  {
    assert forall i :: 0 <= i < |times| ==> times[i] in times;
  }

  lemma {:induction false} BlocksKeepClock(times: seq<nat>, start: nat, n: nat)
    requires MonotoneClock(times) && (forall x :: x in times ==> x <= start)
    requires n > 0 ==> start + STRIDE * (n - 1) < TWO64
    ensures MonotoneClock(Blocks(times, start, n))
    ensures forall x :: x in Blocks(times, start, n) ==> x <= start + STRIDE * (if n == 0 then 0 else n - 1)
  {
    if n > 0 {
      BlocksKeepClock(times, start, n - 1);
      MoreKeepsClock(Blocks(times, start, n - 1), start + STRIDE * (n - 1), RATE_MAX_PER_WIN);
    }
  }

  lemma {:induction false} MoreArrivals(times: seq<nat>, t: nat, k: nat, a: int, b: int)
    ensures ArrivalsIn(More(times, t, k), a, b) == ArrivalsIn(times, a, b) + if a <= t <= b then k else 0
  {
    if k == 0 {
      assert More(times, t, 0) == times;
    } else {
      MoreArrivals(times, t, k - 1, a, b);
      MoreByOne(times, t, k);
      Appended(More(times, t, k - 1), t, a, b);
    }
  }

  lemma {:induction false} BlocksBefore(times: seq<nat>, start: nat, n: nat, a: int, b: int)
    requires n > 0 ==> start + STRIDE * (n - 1) < a
    ensures ArrivalsIn(Blocks(times, start, n), a, b) <= |times|
  {
    if n > 0 {
      BlocksBefore(times, start, n - 1, a, b);
      MoreArrivals(Blocks(times, start, n - 1), start + STRIDE * (n - 1), RATE_MAX_PER_WIN, a, b);
    }
  }

  /** One window length never touches two blocks. */
  lemma {:induction false} BlocksAreSparse(times: seq<nat>, start: nat, n: nat, a: nat)
    ensures WindowArrivals(Blocks(times, start, n), a) <= |times| + RATE_MAX_PER_WIN
  {
    if n > 0 {
      var last, b := start + STRIDE * (n - 1), a + RATE_WINDOW_NS;
      var before := Blocks(times, start, n - 1);
      assert WindowArrivals(Blocks(times, start, n), a) == ArrivalsIn(More(before, last, RATE_MAX_PER_WIN), a, b);
      MoreArrivals(before, last, RATE_MAX_PER_WIN, a, b);
      if a <= last <= b {
        BlocksBefore(times, start, n - 1, a, b);
      } else {
        BlocksAreSparse(times, start, n - 1, a);
      }
    }
  }

  /** The bound is exact: for every span some run reaches it. */
  lemma BoundIsReached(span: nat)
    requires BusiestStart(span) + span < TWO64
    ensures MonotoneClock(BusiestRun(span)) && CounterFits(BusiestRun(span))
    ensures AdmittedIn(BusiestRun(span), BusiestStart(span), BusiestStart(span) + span) == MaxAdmitted(span)
  {
    var n, a, b := span / STRIDE + 1, BusiestStart(span), BusiestStart(span) + span;
    assert STRIDE * (n - 1) + span % STRIDE == span;
    if span % STRIDE == 0 {
      BlocksFill([], 0, n, a, b);
    } else {
      FirstWindow(a, b);
      BlocksFill(More([0], RATE_WINDOW_NS, RATE_MAX_PER_WIN - 1), STRIDE, n, a, b);
    }
  }

  lemma BlocksFill(times: seq<nat>, start: nat, n: nat, a: nat, b: nat)
    requires MonotoneClock(times) && (forall x :: x in times ==> x <= start) && |times| <= RATE_MAX_PER_WIN
    requires times == [] || Entry(times).value.windowStart + RATE_WINDOW_NS < start
    requires n > 0 && a <= start && start + STRIDE * (n - 1) <= b < TWO64
    ensures var run := Blocks(times, start, n);
            && MonotoneClock(run) && CounterFits(run)
            && AdmittedIn(run, a, b) == AdmittedIn(times, a, b) + RATE_MAX_PER_WIN * n
  {
    BlocksKeepClock(times, start, n);
    BlocksAdmitted(times, start, n, a, b);
    SparseRunFits(times, start, n);
  }

  lemma SparseRunFits(times: seq<nat>, start: nat, n: nat)
    requires |times| <= RATE_MAX_PER_WIN
    ensures CounterFits(Blocks(times, start, n))
  {
    forall a: nat
      ensures WindowArrivals(Blocks(times, start, n), a) < TWO32
    {
      BlocksAreSparse(times, start, n, a);
    }
  }

  /** A window opened at 0 whose other 49 packets arrive at its very end, inside [a, b]. */
  lemma FirstWindow(a: nat, b: nat)
    requires a == RATE_WINDOW_NS <= b
    ensures var first := More([0], RATE_WINDOW_NS, RATE_MAX_PER_WIN - 1);
            && MonotoneClock(first) && (forall x :: x in first ==> x <= RATE_WINDOW_NS)
            && Entry(first) == Some(RateEntry(0, RATE_MAX_PER_WIN))
            && AdmittedIn(first, a, b) == RATE_MAX_PER_WIN - 1
  {
    var opener: seq<nat> := [0];
    Appended([], 0, a, b);
    assert [] + opener == opener;
    MoreInWindow(opener, RATE_WINDOW_NS, RATE_MAX_PER_WIN - 1, RateEntry(0, 1), a, b);
    MoreKeepsClock(opener, RATE_WINDOW_NS, RATE_MAX_PER_WIN - 1);
  }
}
