/**
 * The limiter for one source when its entry may be evicted at any time.  The next
 * arrival then opens a new window at once, so the bound grows by one full window for each
 * arrival of the interval, after its first, that finds no entry.
 */
module LimiterEvictions {
  import opened Options
  import opened Sequences
  import opened Numbers
  import opened RateLimiter

  datatype Beat = Arrival(at: nat) | Eviction

  /** The entry after arrivals and evictions in order. */
  function EntryAfter(beats: seq<Beat>): Option<RateEntry> {
    if beats == [] then None
    else
      match Last(beats)
      case Eviction => None
      case Arrival(t) => Some(Account(EntryAfter(Init(beats)), t))
  }

  function ArrivalsOf(beats: seq<Beat>): seq<nat> {
    if beats == [] then []
    else ArrivalsOf(Init(beats)) + if Last(beats).Arrival? then [Last(beats).at] else []
  }

  /** Admitted arrivals in the closed interval [a, b]. */
  function Passed(beats: seq<Beat>, a: int, b: int): nat {
    if beats == [] then 0
    else
      Passed(Init(beats), a, b) +
      match Last(beats)
      case Eviction => 0
      case Arrival(t) => One(a <= t <= b && !Limited(EntryAfter(Init(beats)), t))
  }

  /** An arrival in the interval that finds no entry though one of the interval came before it. */
  predicate Reopens(before: seq<Beat>, t: nat, a: int, b: int) {
    a <= t <= b && EntryAfter(before).None? && ArrivalsIn(ArrivalsOf(before), a, b) > 0
  }

  function Reopened(beats: seq<Beat>, a: int, b: int): nat {
    if beats == [] then 0
    else Reopened(Init(beats), a, b) + One(Last(beats).Arrival? && Reopens(Init(beats), Last(beats).at, a, b))
  }

  // ----- the run since the last eviction -----

  /** What came before the last eviction, and the arrivals since; `None` if there was none. */
  datatype Split = Split(older: Option<seq<Beat>>, times: seq<nat>)

  function SplitLast(beats: seq<Beat>): Split {
    if beats == [] then Split(None, [])
    else
      match Last(beats)
      case Eviction => Split(Some(Init(beats)), [])
      case Arrival(t) =>
        var s := SplitLast(Init(beats));
        s.(times := s.times + [t])
  }

  function Older(s: Split): seq<Beat> {
    match s.older
    case Some(beats) => beats
    case None => []
  }

  /** The arrival that opens the present run counts as a reopening if an older one lies in the interval too. */
  function OpenerReopens(s: Split, a: int, b: int): bool {
    s.times != [] && a <= s.times[0] <= b && ArrivalsIn(ArrivalsOf(Older(s)), a, b) > 0
  }

  ghost predicate SplitsAt(beats: seq<Beat>, s: Split, a: int, b: int) {
    && EntryAfter(beats) == Entry(s.times)
    && ArrivalsOf(beats) == ArrivalsOf(Older(s)) + s.times
    && Passed(beats, a, b) == Passed(Older(s), a, b) + AdmittedIn(s.times, a, b)
    && Reopened(beats, a, b) == Reopened(Older(s), a, b) + One(OpenerReopens(s, a, b))
    && |Older(s)| <= |beats| && (s.older.Some? ==> |Older(s)| < |beats|)
  }

  lemma {:induction false} SplitLastSplits(beats: seq<Beat>, a: int, b: int)
    ensures SplitsAt(beats, SplitLast(beats), a, b)
  {
    if beats != [] {
      match Last(beats)
      case Eviction =>
        assert ArrivalsOf(Init(beats)) + [] == ArrivalsOf(Init(beats));
      case Arrival(t) =>
        SplitLastSplits(Init(beats), a, b);
        SplitGrows(beats, SplitLast(Init(beats)), t, a, b);
    }
  }

  lemma SplitGrows(beats: seq<Beat>, s: Split, t: nat, a: int, b: int)
    requires beats != [] && Last(beats) == Arrival(t) && SplitsAt(Init(beats), s, a, b)
    ensures SplitsAt(beats, s.(times := s.times + [t]), a, b)
  {
    Appended(s.times, t, a, b);
    Associate(ArrivalsOf(Older(s)), s.times, [t]);
    if s.times == [] {
      assert ArrivalsOf(Older(s)) + [] == ArrivalsOf(Older(s));
    }
  }

  // ----- the bound -----

  lemma {:induction false} NoneInInterval(beats: seq<Beat>, a: int, b: int)
    requires ArrivalsIn(ArrivalsOf(beats), a, b) == 0
    ensures Passed(beats, a, b) == 0
  {
    if beats != [] {
      var before := ArrivalsOf(Init(beats));
      if Last(beats).Arrival? {
        Appended(before, Last(beats).at, a, b);
      } else {
        assert before + [] == before;
      }
      NoneInInterval(Init(beats), a, b);
    }
  }

  /** Shortening the interval to the latest arrival changes nothing. */
  lemma {:induction false} IntervalEnds(beats: seq<Beat>, a: int, b: int, c: int)
    requires b <= c && forall i :: 0 <= i < |ArrivalsOf(beats)| ==> ArrivalsOf(beats)[i] <= b
    ensures Passed(beats, a, b) == Passed(beats, a, c)
    ensures Reopened(beats, a, b) == Reopened(beats, a, c)
    ensures ArrivalsIn(ArrivalsOf(beats), a, b) == ArrivalsIn(ArrivalsOf(beats), a, c)
  {
    if beats != [] {
      var before := ArrivalsOf(Init(beats));
      assert forall i :: 0 <= i < |before| ==> before[i] == ArrivalsOf(beats)[i];
      IntervalEnds(Init(beats), a, b, c);
      if Last(beats).Arrival? {
        var t := Last(beats).at;
        assert ArrivalsOf(beats)[|before|] == t;
        Appended(before, t, a, b);
        Appended(before, t, a, c);
      } else {
        assert before + [] == before;
      }
    }
  }

  lemma {:induction false} IntervalStarts(times: seq<nat>, a: int, b: int, c: int)
    requires a <= b && forall i :: 0 <= i < |times| ==> b <= times[i]
    ensures AdmittedIn(times, a, c) == AdmittedIn(times, b, c)
  {
    if times != [] {
      IntervalStarts(times[..|times| - 1], a, b, c);
    }
  }

  lemma {:induction false} AllOutside(times: seq<nat>, a: int, b: int)
    requires forall i :: 0 <= i < |times| ==> times[i] < a || b < times[i]
    ensures ArrivalsIn(times, a, b) == 0 && AdmittedIn(times, a, b) == 0
  {
    if times != [] {
      AllOutside(times[..|times| - 1], a, b);
    }
  }

  /** Two adjoining intervals, the second from its first packet on. */
  lemma BoundsAdd(first: nat, second: nat)
    ensures MaxAdmitted(first) + RATE_MAX_PER_WIN * (second / STRIDE + 1)
         <= MaxAdmitted(first + second) + RATE_MAX_PER_WIN
  {
    var p, r, q, u := first / STRIDE, first % STRIDE, second / STRIDE, second % STRIDE;
    assert first + second == STRIDE * (p + q) + (r + u);
    if r + u < STRIDE {
      assert (first + second) / STRIDE == p + q && (first + second) % STRIDE == r + u;
    } else {
      assert (first + second) / STRIDE == p + q + 1;
    }
  }

  ghost predicate Bounded(beats: seq<Beat>, a: nat, b: nat)
    requires a <= b
  {
    Passed(beats, a, b) <= MaxAdmitted(b - a) + RATE_MAX_PER_WIN * Reopened(beats, a, b)
  }

  /** In every run with evictions, [a, b] admits at most MaxAdmitted(b - a) packets, and 50 more for each reopening. */
  lemma {:induction false} EvictionBound(beats: seq<Beat>, a: nat, b: nat)
    requires a <= b && MonotoneClock(ArrivalsOf(beats)) && CounterFits(ArrivalsOf(beats))
    ensures Bounded(beats, a, b)
    decreases |beats|
  {
    var s := SplitLast(beats);
    SplitLastSplits(beats, a, b);
    PartsFit(ArrivalsOf(Older(s)), s.times);
    if s.older.None? {
      assert Passed([], a, b) == 0;
      AdmissionBound(s.times, a, b);
    } else if s.times == [] || b < s.times[0] {
      AllOutside(s.times, a, b);
      EvictionBound(Older(s), a, b);
    } else if ArrivalsIn(ArrivalsOf(Older(s)), a, b) == 0 {
      NoneInInterval(Older(s), a, b);
      AdmissionBound(s.times, a, b);
    } else if s.times[0] < a {
      OlderOutside(Older(s), s.times[0], a, b);
    } else {
      var t := s.times[0];
      EvictionBound(Older(s), a, t);
      IntervalEnds(Older(s), a, t, b);
      IntervalStarts(s.times, a, t, b);
      RunBound(s.times, b - t);
      BoundsAdd(t - a, b - t);
    }
  }

  lemma OlderOutside(beats: seq<Beat>, t: nat, a: nat, b: nat)
    requires t < a && forall i :: 0 <= i < |ArrivalsOf(beats)| ==> ArrivalsOf(beats)[i] <= t
    ensures ArrivalsIn(ArrivalsOf(beats), a, b) == 0
  {
    AllOutside(ArrivalsOf(beats), a, b);
  }

  lemma PartsFit(older: seq<nat>, times: seq<nat>)
    requires MonotoneClock(older + times) && CounterFits(older + times)
    ensures MonotoneClock(older) && CounterFits(older) && MonotoneClock(times) && CounterFits(times)
    ensures times != [] ==>
              && (forall i :: 0 <= i < |older| ==> older[i] <= times[0])
              && (forall i :: 0 <= i < |times| ==> times[0] <= times[i])
  {
    var all := older + times;
    PrefixesFit(all, |older|);
    assert all[..|older|] == older;
    assert forall i :: 0 <= i < |times| ==> times[i] == all[|older| + i];
    assert forall i :: 0 <= i < |older| ==> older[i] == all[i];
    forall a: nat
      ensures WindowArrivals(times, a) < TWO32
    {
      ArrivalsAdd(older, times, a, a + RATE_WINDOW_NS);
      assert WindowArrivals(all, a) < TWO32;
    }
  }

  lemma {:induction false} ArrivalsAdd(older: seq<nat>, times: seq<nat>, a: int, b: int)
    ensures ArrivalsIn(older + times, a, b) == ArrivalsIn(older, a, b) + ArrivalsIn(times, a, b)
  {
    if times == [] {
      assert older + times == older;
    } else {
      var n := |times| - 1;
      ArrivalsAdd(older, times[..n], a, b);
      assert (older + times)[..|older| + n] == older + times[..n];
    }
  }

  // ----- the bound is reached -----

  function AsBeats(times: seq<nat>): seq<Beat> {
    if times == [] then [] else AsBeats(Init(times)) + [Arrival(Last(times))]
  }

  /** Without evictions this is the limiter as before, and nothing reopens. */
  lemma {:induction false} AsBeatsFollow(times: seq<nat>, a: int, b: int)
    ensures EntryAfter(AsBeats(times)) == Entry(times) && ArrivalsOf(AsBeats(times)) == times
    ensures Passed(AsBeats(times), a, b) == AdmittedIn(times, a, b) && Reopened(AsBeats(times), a, b) == 0
  {
    if times != [] {
      AsBeatsFollow(Init(times), a, b);
      ArrivalAdds(AsBeats(Init(times)), Last(times), a, b);
    }
  }

  lemma ArrivalAdds(beats: seq<Beat>, t: nat, a: int, b: int)
    ensures var more := beats + [Arrival(t)];
            && EntryAfter(more) == Some(Account(EntryAfter(beats), t)) && ArrivalsOf(more) == ArrivalsOf(beats) + [t]
            && Passed(more, a, b) == Passed(beats, a, b) + One(a <= t <= b && !Limited(EntryAfter(beats), t))
            && Reopened(more, a, b) == Reopened(beats, a, b) + One(Reopens(beats, t, a, b))
  {
    assert Init(beats + [Arrival(t)]) == beats;
  }

  lemma EvictionAdds(beats: seq<Beat>, a: int, b: int)
    ensures var more := beats + [Eviction];
            && EntryAfter(more) == None && ArrivalsOf(more) == ArrivalsOf(beats)
            && Passed(more, a, b) == Passed(beats, a, b) && Reopened(more, a, b) == Reopened(beats, a, b)
  {
    assert Init(beats + [Eviction]) == beats;
    assert ArrivalsOf(beats) + [] == ArrivalsOf(beats);
  }

  /** `k` more arrivals at time `t`. */
  function Burst(beats: seq<Beat>, t: nat, k: nat): seq<Beat> {
    if k == 0 then beats else Burst(beats, t, k - 1) + [Arrival(t)]
  }

  lemma {:induction false} BurstArrivals(beats: seq<Beat>, t: nat, k: nat)
    ensures ArrivalsOf(Burst(beats, t, k)) == More(ArrivalsOf(beats), t, k)
  {
    if k == 0 {
      assert More(ArrivalsOf(beats), t, 0) == ArrivalsOf(beats);
    } else {
      BurstArrivals(beats, t, k - 1);
      ArrivalAdds(Burst(beats, t, k - 1), t, 0, 0);
      MoreByOne(ArrivalsOf(beats), t, k);
    }
  }

  /** `more` is `beats` and then `k` arrivals at `t` that find no entry at first and pass. */
  ghost predicate AddsBurst(beats: seq<Beat>, more: seq<Beat>, t: nat, k: nat, a: int, b: int) {
    && EntryAfter(more) == (if k == 0 then None else Some(RateEntry(t, k)))
    && Passed(more, a, b) == Passed(beats, a, b) + k && Reopened(more, a, b) == Reopened(beats, a, b) + One(k > 0)
  }

  lemma BurstGrows(beats: seq<Beat>, before: seq<Beat>, t: nat, k: nat, a: int, b: int)
    requires AddsBurst(beats, before, t, k, a, b) && a <= t <= b && k < RATE_MAX_PER_WIN
    requires k == 0 ==> ArrivalsIn(ArrivalsOf(before), a, b) > 0
    ensures AddsBurst(beats, before + [Arrival(t)], t, k + 1, a, b)
  {
    ArrivalAdds(before, t, a, b);
  }

  /** After an eviction a burst of up to 50 passes whole, and reopens once. */
  lemma {:induction false} BurstPasses(beats: seq<Beat>, t: nat, k: nat, a: int, b: int)
    requires EntryAfter(beats) == None && a <= t <= b && k <= RATE_MAX_PER_WIN
    requires ArrivalsIn(ArrivalsOf(beats), a, b) > 0
    ensures AddsBurst(beats, Burst(beats, t, k), t, k, a, b)
  {
    if k > 0 {
      BurstPasses(beats, t, k - 1, a, b);
      var before := Burst(beats, t, k - 1);
      assert k == 1 ==> before == beats;
      BurstGrows(beats, before, t, k - 1, a, b);
    }
  }

  /** An eviction and a burst of 50. */
  function EvictAndBurst(beats: seq<Beat>, t: nat): seq<Beat> {
    Burst(beats + [Eviction], t, RATE_MAX_PER_WIN)
  }

  lemma EvictAndBurstPasses(beats: seq<Beat>, t: nat, a: int, b: int)
    requires a <= t <= b && ArrivalsIn(ArrivalsOf(beats), a, b) > 0
    ensures var more := EvictAndBurst(beats, t);
            && Passed(more, a, b) == Passed(beats, a, b) + RATE_MAX_PER_WIN
            && Reopened(more, a, b) == Reopened(beats, a, b) + 1
  {
    EvictionAdds(beats, a, b);
    BurstPasses(beats + [Eviction], t, RATE_MAX_PER_WIN, a, b);
  }

  lemma EvictAndBurstArrivals(beats: seq<Beat>, t: nat)
    ensures ArrivalsOf(EvictAndBurst(beats, t)) == More(ArrivalsOf(beats), t, RATE_MAX_PER_WIN)
  {
    EvictionAdds(beats, 0, 0);
    BurstArrivals(beats + [Eviction], t, RATE_MAX_PER_WIN);
  }

  /** `r` times that. */
  function Bursts(beats: seq<Beat>, t: nat, r: nat): seq<Beat> {
    if r == 0 then beats else EvictAndBurst(Bursts(beats, t, r - 1), t)
  }

  ghost predicate AddsBursts(beats: seq<Beat>, more: seq<Beat>, r: nat, a: int, b: int) {
    && Passed(more, a, b) == Passed(beats, a, b) + RATE_MAX_PER_WIN * r
    && Reopened(more, a, b) == Reopened(beats, a, b) + r
    && ArrivalsIn(ArrivalsOf(more), a, b) > 0
  }

  lemma BurstsGrow(beats: seq<Beat>, before: seq<Beat>, t: nat, r: nat, a: int, b: int)
    requires AddsBursts(beats, before, r, a, b) && a <= t <= b
    ensures AddsBursts(beats, EvictAndBurst(before, t), r + 1, a, b)
  {
    EvictAndBurstPasses(before, t, a, b);
    EvictAndBurstArrivals(before, t);
    MoreArrivals(ArrivalsOf(before), t, RATE_MAX_PER_WIN, a, b);
  }

  lemma {:induction false} BurstsPass(beats: seq<Beat>, t: nat, r: nat, a: int, b: int)
    requires a <= t <= b && ArrivalsIn(ArrivalsOf(beats), a, b) > 0
    ensures AddsBursts(beats, Bursts(beats, t, r), r, a, b)
  {
    if r > 0 {
      BurstsPass(beats, t, r - 1, a, b);
      BurstsGrow(beats, Bursts(beats, t, r - 1), t, r - 1, a, b);
    }
  }

  /** The arrivals end by `t`, and no window holds more than `most` of them. */
  ghost predicate Ends(times: seq<nat>, t: nat, most: nat) {
    MonotoneClock(times) && (forall x :: x in times ==> x <= t) && forall a: nat :: WindowArrivals(times, a) <= most
  }

  lemma MoreEnds(times: seq<nat>, t: nat, k: nat, most: nat)
    requires Ends(times, t, most) && t < TWO64
    ensures Ends(More(times, t, k), t, most + k)
  {
    MoreKeepsClock(times, t, k);
    forall a: nat
      ensures WindowArrivals(More(times, t, k), a) <= most + k
    {
      MoreArrivals(times, t, k, a, a + RATE_WINDOW_NS);
      assert WindowArrivals(times, a) <= most;
    }
  }

  lemma EvictAndBurstEnds(beats: seq<Beat>, t: nat, most: nat)
    requires Ends(ArrivalsOf(beats), t, most) && t < TWO64
    ensures Ends(ArrivalsOf(EvictAndBurst(beats, t)), t, most + RATE_MAX_PER_WIN)
  {
    EvictAndBurstArrivals(beats, t);
    MoreEnds(ArrivalsOf(beats), t, RATE_MAX_PER_WIN, most);
  }

  /** Bursts at the end keep the clock monotone and add no more than their arrivals to any window. */
  lemma {:induction false} BurstsEnd(beats: seq<Beat>, t: nat, r: nat, most: nat)
    requires Ends(ArrivalsOf(beats), t, most) && t < TWO64
    ensures Ends(ArrivalsOf(Bursts(beats, t, r)), t, most + RATE_MAX_PER_WIN * r)
  {
    if r > 0 {
      var before := Bursts(beats, t, r - 1);
      BurstsEnd(beats, t, r - 1, most);
      EvictAndBurstEnds(before, t, most + RATE_MAX_PER_WIN * (r - 1));
    }
  }

  /** The busiest run for the span, then `r` evictions, each with a burst, at the end of the interval. */
  function BusiestBeats(span: nat, r: nat): seq<Beat> {
    Bursts(AsBeats(BusiestRun(span)), BusiestStart(span) + span, r)
  }

  lemma FollowedByBursts(times: seq<nat>, a: int, t: nat, r: nat, most: nat)
    requires a <= t && AdmittedIn(times, a, t) == most > 0
    ensures var beats := Bursts(AsBeats(times), t, r);
            Reopened(beats, a, t) == r && Passed(beats, a, t) == most + RATE_MAX_PER_WIN * r
  {
    AsBeatsFollow(times, a, t);
    AdmittedArrive(times, a, t);
    BurstsPass(AsBeats(times), t, r, a, t);
  }

  lemma BusiestBeatsPass(span: nat, r: nat)
    requires BusiestStart(span) + span < TWO64
    ensures var a, b := BusiestStart(span), BusiestStart(span) + span;
            var beats := BusiestBeats(span, r);
            Reopened(beats, a, b) == r && Passed(beats, a, b) == MaxAdmitted(span) + RATE_MAX_PER_WIN * r
  {
    BoundIsReached(span);
    FollowedByBursts(BusiestRun(span), BusiestStart(span), BusiestStart(span) + span, r, MaxAdmitted(span));
  }

  lemma BusiestBeatsFit(span: nat, r: nat)
    requires BusiestStart(span) + span < TWO64 && RATE_MAX_PER_WIN * (r + 2) < TWO32
    ensures var times := ArrivalsOf(BusiestBeats(span, r)); MonotoneClock(times) && CounterFits(times)
  {
    BusiestRunEnds(span);
    BurstsFit(BusiestRun(span), BusiestStart(span) + span, r);
  }

  lemma BurstsFit(times: seq<nat>, t: nat, r: nat)
    requires Ends(times, t, 2 * RATE_MAX_PER_WIN) && t < TWO64 && RATE_MAX_PER_WIN * (r + 2) < TWO32
    ensures var more := ArrivalsOf(Bursts(AsBeats(times), t, r)); MonotoneClock(more) && CounterFits(more)
  {
    AsBeatsFollow(times, 0, t);
    BurstsEnd(AsBeats(times), t, r, 2 * RATE_MAX_PER_WIN);
    EndsFit(ArrivalsOf(Bursts(AsBeats(times), t, r)), t, RATE_MAX_PER_WIN * (r + 2));
  }

  /** The bound with evictions is exact too: for every span and number of reopenings some run reaches it. */
  lemma EvictionBoundIsReached(span: nat, r: nat)
    requires BusiestStart(span) + span < TWO64 && RATE_MAX_PER_WIN * (r + 2) < TWO32
    ensures var a, b := BusiestStart(span), BusiestStart(span) + span;
            var beats := BusiestBeats(span, r);
            && MonotoneClock(ArrivalsOf(beats)) && CounterFits(ArrivalsOf(beats)) && Reopened(beats, a, b) == r
            && Passed(beats, a, b) == MaxAdmitted(span) + RATE_MAX_PER_WIN * r
  {
    BusiestBeatsPass(span, r);
    BusiestBeatsFit(span, r);
  }

  lemma {:induction false} AdmittedArrive(times: seq<nat>, a: int, b: int)
    ensures AdmittedIn(times, a, b) <= ArrivalsIn(times, a, b)
  {
    if times != [] {
      AdmittedArrive(times[..|times| - 1], a, b);
    }
  }

  lemma EndsFit(times: seq<nat>, t: nat, most: nat)
    requires Ends(times, t, most) && most < TWO32
    ensures MonotoneClock(times) && CounterFits(times)
  {
    forall a: nat
      ensures WindowArrivals(times, a) < TWO32
    {
      assert WindowArrivals(times, a) <= most;
    }
  }

  /** The busiest run ends with the interval, and no window of it holds more than 100 arrivals. */
  lemma BusiestRunEnds(span: nat)
    requires BusiestStart(span) + span < TWO64
    ensures Ends(BusiestRun(span), BusiestStart(span) + span, 2 * RATE_MAX_PER_WIN)
  {
    var n, first := span / STRIDE + 1, More([0], RATE_WINDOW_NS, RATE_MAX_PER_WIN - 1);
    assert STRIDE * (n - 1) + span % STRIDE == span;
    if span % STRIDE == 0 {
      BlocksEnd([], 0, n);
    } else {
      FirstWindow(RATE_WINDOW_NS, RATE_WINDOW_NS);
      BlocksEnd(first, STRIDE, n);
    }
  }

  lemma BlocksEnd(times: seq<nat>, start: nat, n: nat)
    requires n > 0 && MonotoneClock(times) && (forall x :: x in times ==> x <= start) && |times| <= RATE_MAX_PER_WIN
    requires start + STRIDE * (n - 1) < TWO64
    ensures forall t :: start + STRIDE * (n - 1) <= t ==> Ends(Blocks(times, start, n), t, 2 * RATE_MAX_PER_WIN)
  {
    BlocksKeepClock(times, start, n);
    forall a: nat
      ensures WindowArrivals(Blocks(times, start, n), a) <= 2 * RATE_MAX_PER_WIN
    {
      BlocksAreSparse(times, start, n, a);
    }
  }
}
