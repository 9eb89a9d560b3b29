/** Whole runs of the enforcer: packets of many sources, interleaved with evictions. */
module EnforcerRuns {
  import opened Options
  import opened Sequences
  import opened Frames
  import opened RateLimiter
  import opened LimiterEvictions
  import opened SmMap
  import opened Enforcer

  type Edges = map<EdgeKey, NameBuf>

  /** The state after a run from program load. */
  function Run(edges: Edges, evs: seq<Event>): State {
    if evs == [] then START else Step(edges, Run(edges, Init(evs)), Last(evs))
  }

  /** The packet that an event contributes to the log: none or one. */
  function Emitted(edges: Edges, st: State, ev: Event): seq<Packet> {
    match Observe(edges, st, ev)
    case Some(p) => [p]
    case None => []
  }

  /** The packets of a run that reached categorisation, in order, with what happened to each. */
  function Log(edges: Edges, evs: seq<Event>): seq<Packet> {
    if evs == [] then [] else Log(edges, Init(evs)) + Emitted(edges, Run(edges, Init(evs)), Last(evs))
  }

  // ----- the shared maps refine one fold per source -----

  /** The event concerns the entries of `ip`: its own categorised packet, or an eviction of its entry. */
  predicate Concerns(ev: Event, ip: Ip) {
    match ev
    case Arrive(frame, _, _, _) => (
      match EnforcerParse(frame)
      case Some(h) => h.saddr == ip && ProcedureLabel(h.code).Some?
      case None => false)
    case EvictUe(x) => x == ip
    case EvictRate(x) => x == ip
  }

  function Own(evs: seq<Event>, ip: Ip): seq<Event> {
    if evs == [] then []
    else Own(Init(evs), ip) + if Concerns(Last(evs), ip) then [Last(evs)] else []
  }

  /** One event seen by its source alone. */
  function SourceStep(edges: Edges, s: Source, ev: Event): Source {
    match ev
    case Arrive(_, now, ueStored, rateStored) =>
      Source(UeStep(edges, s.ue, now, ueStored), RateStep(s.rate, now, rateStored))
    case EvictUe(_) => s.(ue := None)
    case EvictRate(_) => s.(rate := None)
  }

  /** What a source alone makes of its own packet. */
  function SourcePacket(edges: Edges, ip: Ip, s: Source, ev: Event): seq<Packet> {
    match ev
    case Arrive(_, now, _, _) => [Packet(ip, now, true, EdgeTaken(edges, s.ue).None?, Limited(s.rate, now))]
    case _ => []
  }

  function SourceRun(edges: Edges, evs: seq<Event>): Source {
    if evs == [] then Source(None, None) else SourceStep(edges, SourceRun(edges, Init(evs)), Last(evs))
  }

  function SourceLog(edges: Edges, ip: Ip, evs: seq<Event>): seq<Packet> {
    if evs == [] then []
    else SourceLog(edges, ip, Init(evs)) + SourcePacket(edges, ip, SourceRun(edges, Init(evs)), Last(evs))
  }

  /** The labelled packets of one source in a log. */
  function LogOf(log: seq<Packet>, ip: Ip): seq<Packet> {
    if log == [] then []
    else LogOf(Init(log), ip) + if Last(log).ip == ip && Last(log).labelled then [Last(log)] else []
  }

  lemma {:induction false} LogOfSplits(a: seq<Packet>, b: seq<Packet>, ip: Ip)
    ensures LogOf(a + b, ip) == LogOf(a, ip) + LogOf(b, ip)
  {
    if b == [] {
      assert a + b == a;
    } else {
      LogOfSplits(a, Init(b), ip);
      assert Init(a + b) == a + Init(b) && Last(a + b) == Last(b);
    }
  }

  lemma StepOnOneSource(edges: Edges, st: State, ev: Event, ip: Ip)
    ensures SourceOf(Step(edges, st, ev), ip)
         == if Concerns(ev, ip) then SourceStep(edges, SourceOf(st, ip), ev) else SourceOf(st, ip)
  {
  }

  lemma PacketOfOneSource(edges: Edges, st: State, ev: Event, ip: Ip)
    ensures LogOf(Emitted(edges, st, ev), ip)
         == if Concerns(ev, ip) then SourcePacket(edges, ip, SourceOf(st, ip), ev) else []
  {
    match Observe(edges, st, ev) {
      case Some(p) => assert Init([p]) == [];
      case None =>
    }
  }

  lemma OwnAppends(edges: Edges, ip: Ip, own: seq<Event>, ev: Event)
    ensures SourceRun(edges, own + [ev]) == SourceStep(edges, SourceRun(edges, own), ev)
    ensures SourceLog(edges, ip, own + [ev])
         == SourceLog(edges, ip, own) + SourcePacket(edges, ip, SourceRun(edges, own), ev)
  {
    assert Init(own + [ev]) == own;
  }

  /**
   * Whatever the interleaving, what the maps hold for a source depends only on its
   * own packets and evictions.
   */
  lemma {:induction false} StateRefinesPerSource(edges: Edges, evs: seq<Event>, ip: Ip)
    ensures SourceOf(Run(edges, evs), ip) == SourceRun(edges, Own(evs, ip))
  {
    if evs != [] {
      StateRefinesPerSource(edges, Init(evs), ip);
      StepOnOneSource(edges, Run(edges, Init(evs)), Last(evs), ip);
      OwnAppends(edges, ip, Own(Init(evs), ip), Last(evs));
      assert Own(Init(evs), ip) + [] == Own(Init(evs), ip);
    }
  }

  /** And so does what happens to its packets: its flags and its drops. */
  lemma {:induction false} LogRefinesPerSource(edges: Edges, evs: seq<Event>, ip: Ip)
    ensures LogOf(Log(edges, evs), ip) == SourceLog(edges, ip, Own(evs, ip))
  {
    if evs != [] {
      var before, ev := Init(evs), Last(evs);
      LogRefinesPerSource(edges, before, ip);
      StateRefinesPerSource(edges, before, ip);
      LogOfSplits(Log(edges, before), Emitted(edges, Run(edges, before), ev), ip);
      PacketOfOneSource(edges, Run(edges, before), ev, ip);
      OwnAppends(edges, ip, Own(before, ip), ev);
      assert Own(before, ip) + [] == Own(before, ip);
    }
  }

  // ----- the limiter over whole runs -----

  /** The entry of this source is never evicted from the limiter map, and its insertion succeeds. */
  ghost predicate RateEntryKept(own: seq<Event>) {
    forall i :: 0 <= i < |own| ==> !own[i].EvictRate? && (own[i].Arrive? ==> own[i].rateStored)
  }

  function Times(log: seq<Packet>): seq<nat> {
    if log == [] then [] else Times(Init(log)) + [Last(log).now]
  }

  function PassedIn(log: seq<Packet>, a: int, b: int): nat {
    if log == [] then 0
    else PassedIn(Init(log), a, b) + One(a <= Last(log).now <= b && !Last(log).dropped)
  }

  lemma LogAppends(log: seq<Packet>, p: Packet, a: int, b: int)
    ensures Times(log + [p]) == Times(log) + [p.now]
    ensures PassedIn(log + [p], a, b) == PassedIn(log, a, b) + One(a <= p.now <= b && !p.dropped)
  {
    assert Init(log + [p]) == log;
  }

  /** The log of a source agrees with the limiter run on its arrival times. */
  ghost predicate FollowsLimiter(log: seq<Packet>, rate: Option<RateEntry>, a: int, b: int) {
    rate == Entry(Times(log)) && PassedIn(log, a, b) == AdmittedIn(Times(log), a, b)
  }

  lemma LimiterStep(log: seq<Packet>, p: Packet, rate: Option<RateEntry>, a: int, b: int)
    requires FollowsLimiter(log, rate, a, b)
    requires p.dropped <==> Limited(rate, p.now)
    ensures FollowsLimiter(log + [p], Some(Account(rate, p.now)), a, b)
  {
    LogAppends(log, p, a, b);
    Appended(Times(log), p.now, a, b);
  }

  lemma {:induction false} SourceFollowsLimiter(edges: Edges, ip: Ip, own: seq<Event>, a: int, b: int)
    requires RateEntryKept(own)
    ensures FollowsLimiter(SourceLog(edges, ip, own), SourceRun(edges, own).rate, a, b)
  {
    if own != [] {
      var before, ev := Init(own), Last(own);
      SourceFollowsLimiter(edges, ip, before, a, b);
      assert own == before + [ev];
      OwnAppends(edges, ip, before, ev);
      var log, s := SourceLog(edges, ip, before), SourceRun(edges, before);
      if ev.Arrive? {
        LimiterStep(log, SourcePacket(edges, ip, s, ev)[0], s.rate, a, b);
      } else {
        assert log + [] == log;
      }
    }
  }

  /** The arrival times of the InitialUEMessages of one source. */
  function ArrivalTimes(edges: Edges, evs: seq<Event>, ip: Ip): seq<nat> {
    Times(LogOf(Log(edges, evs), ip))
  }

  lemma SourceIsBounded(edges: Edges, ip: Ip, own: seq<Event>, log: seq<Packet>, times: seq<nat>, a: nat, b: nat)
    requires RateEntryKept(own) && log == SourceLog(edges, ip, own) && times == Times(log) && a <= b
    requires MonotoneClock(times) && CounterFits(times)
    ensures PassedIn(log, a, b) <= MaxAdmitted(b - a)
  {
    SourceFollowsLimiter(edges, ip, own, a, b);
    AdmissionBound(times, a, b);
  }

  /**
   * In every run, over all interleavings, without eviction of the source's limiter
   * entry: any closed interval [a, b] lets at most MaxAdmitted(b - a) of its
   * InitialUEMessages through: 99 in one window length.
   */
  lemma FloodIsBounded(edges: Edges, evs: seq<Event>, ip: Ip, a: nat, b: nat)
    requires RateEntryKept(Own(evs, ip)) && a <= b
    requires MonotoneClock(ArrivalTimes(edges, evs, ip)) && CounterFits(ArrivalTimes(edges, evs, ip))
    ensures PassedIn(LogOf(Log(edges, evs), ip), a, b) <= MaxAdmitted(b - a)
  {
    LogRefinesPerSource(edges, evs, ip);
    SourceIsBounded(edges, ip, Own(evs, ip), LogOf(Log(edges, evs), ip), ArrivalTimes(edges, evs, ip), a, b);
  }

  // ----- the same in verdicts -----

  /** The event is an InitialUEMessage of the source, at a time in [a, b], that is answered by XDP_PASS. */
  predicate LetsThrough(edges: Edges, st: State, ev: Event, ip: Ip, a: int, b: int) {
    && ev.Arrive? && a <= ev.now <= b && EnforcerParse(ev.frame) == Some(NgapHeader(ip, 15))
    && VerdictOf(Observe(edges, st, ev)) == XdpPass
  }

  /** How many of them there are in a run. */
  function LetThrough(edges: Edges, evs: seq<Event>, ip: Ip, a: int, b: int): nat {
    if evs == [] then 0
    else
      LetThrough(edges, Init(evs), ip, a, b) + One(LetsThrough(edges, Run(edges, Init(evs)), Last(evs), ip, a, b))
  }

  lemma {:induction false} LetThroughArePassed(edges: Edges, evs: seq<Event>, ip: Ip, a: int, b: int)
    ensures LetThrough(edges, evs, ip, a, b) == PassedIn(LogOf(Log(edges, evs), ip), a, b)
  {
    if evs != [] {
      var before, ev := Init(evs), Last(evs);
      var st := Run(edges, before);
      LetThroughArePassed(edges, before, ip, a, b);
      LogOfSplits(Log(edges, before), Emitted(edges, st, ev), ip);
      PacketLetThrough(edges, st, ev, LogOf(Log(edges, before), ip), ip, a, b);
    }
  }

  lemma PacketLetThrough(edges: Edges, st: State, ev: Event, log: seq<Packet>, ip: Ip, a: int, b: int)
    ensures PassedIn(log + LogOf(Emitted(edges, st, ev), ip), a, b)
         == PassedIn(log, a, b) + One(LetsThrough(edges, st, ev, ip, a, b))
  {
    PacketOfOneSource(edges, st, ev, ip);
    if Concerns(ev, ip) && ev.Arrive? {
      var p := SourcePacket(edges, ip, SourceOf(st, ip), ev)[0];
      LogAppends(log, p, a, b);
      InitialMessageInFull(edges, st, ev);
    } else {
      assert log + LogOf(Emitted(edges, st, ev), ip) == log;
    }
  }

  /** In numbers: 99 in one second. */
  lemma OneSecond()
    ensures MaxAdmitted(1_000_000_000) == 99
  {
  }

  /** In every run, no interval sees more messages of a source answered by XDP_PASS than that. */
  lemma VerdictsAreBounded(edges: Edges, evs: seq<Event>, ip: Ip, a: nat, b: nat)
    requires RateEntryKept(Own(evs, ip)) && a <= b
    requires MonotoneClock(ArrivalTimes(edges, evs, ip)) && CounterFits(ArrivalTimes(edges, evs, ip))
    ensures LetThrough(edges, evs, ip, a, b)
         <= 50 * ((b - a) / 1_000_000_001 + 1) + if (b - a) % 1_000_000_001 == 0 then 0 else 49
    ensures b - a == 1_000_000_000 ==> LetThrough(edges, evs, ip, a, b) <= 99
  {
    FloodIsBounded(edges, evs, ip, a, b);
    LetThroughArePassed(edges, evs, ip, a, b);
    BoundInNumbers(b - a);
    OneSecond();
  }

  // ----- the same with evictions -----

  /** The limiter's view of a source's events; a first entry that cannot be stored is as good as evicted. */
  function Beats(edges: Edges, own: seq<Event>): seq<Beat> {
    if own == [] then []
    else
      Beats(edges, Init(own)) +
      match Last(own)
      case Arrive(_, now, _, stored) =>
        if stored || SourceRun(edges, Init(own)).rate.Some? then [Arrival(now)] else [Arrival(now), Eviction]
      case EvictRate(_) => [Eviction]
      case EvictUe(_) => []
  }

  /** A log agrees with the limiter on arrivals and evictions. */
  ghost predicate FollowsBeats(log: seq<Packet>, rate: Option<RateEntry>, beats: seq<Beat>, a: int, b: int) {
    rate == EntryAfter(beats) && Times(log) == ArrivalsOf(beats) && PassedIn(log, a, b) == Passed(beats, a, b)
  }

  lemma BeatOfPacket(log: seq<Packet>, p: Packet, rate: Option<RateEntry>, beats: seq<Beat>, stored: bool,
                     a: int, b: int)
    requires FollowsBeats(log, rate, beats, a, b) && p.dropped == Limited(rate, p.now)
    ensures FollowsBeats(log + [p], RateStep(rate, p.now, stored),
                         beats + if stored || rate.Some? then [Arrival(p.now)] else [Arrival(p.now), Eviction], a, b)
  {
    LogAppends(log, p, a, b);
    ArrivalAdds(beats, p.now, a, b);
    if !stored && rate.None? {
      EvictionAdds(beats + [Arrival(p.now)], a, b);
      assert beats + [Arrival(p.now), Eviction] == beats + [Arrival(p.now)] + [Eviction];
    }
  }

  lemma {:induction false} SourceFollowsBeats(edges: Edges, ip: Ip, own: seq<Event>, a: int, b: int)
    ensures FollowsBeats(SourceLog(edges, ip, own), SourceRun(edges, own).rate, Beats(edges, own), a, b)
  {
    if own != [] {
      var before, ev := Init(own), Last(own);
      SourceFollowsBeats(edges, ip, before, a, b);
      var log, s, beats := SourceLog(edges, ip, before), SourceRun(edges, before), Beats(edges, before);
      assert log + [] == log && beats + [] == beats;
      match ev
      case Arrive(_, now, _, stored) =>
        BeatOfPacket(log, SourcePacket(edges, ip, s, ev)[0], s.rate, beats, stored, a, b);
      case EvictRate(_) => EvictionAdds(beats, a, b);
      case EvictUe(_) =>
    }
  }

  lemma SourceBoundedByBeats(edges: Edges, ip: Ip, own: seq<Event>, log: seq<Packet>, times: seq<nat>, a: nat, b: nat)
    requires log == SourceLog(edges, ip, own) && times == Times(log) && a <= b
    requires MonotoneClock(times) && CounterFits(times)
    ensures PassedIn(log, a, b) <= MaxAdmitted(b - a) + RATE_MAX_PER_WIN * Reopened(Beats(edges, own), a, b)
  {
    SourceFollowsBeats(edges, ip, own, a, b);
    EvictionBound(Beats(edges, own), a, b);
  }

  /**
   * In every run whatever, with any evictions and failed updates: the bound grows by one
   * full window for each message of the interval, after its first, that finds no entry.
   */
  lemma FloodIsBoundedUnderEviction(edges: Edges, evs: seq<Event>, ip: Ip, a: nat, b: nat)
    requires a <= b
    requires MonotoneClock(ArrivalTimes(edges, evs, ip)) && CounterFits(ArrivalTimes(edges, evs, ip))
    ensures PassedIn(LogOf(Log(edges, evs), ip), a, b)
         <= MaxAdmitted(b - a) + RATE_MAX_PER_WIN * Reopened(Beats(edges, Own(evs, ip)), a, b)
  {
    LogRefinesPerSource(edges, evs, ip);
    SourceBoundedByBeats(edges, ip, Own(evs, ip), LogOf(Log(edges, evs), ip), ArrivalTimes(edges, evs, ip), a, b);
  }

  // ----- drops -----

  /** The packet at a position of a source's log is dropped just when the limiter refuses it. */
  lemma {:induction false} DroppedIsLimited(edges: Edges, ip: Ip, own: seq<Event>, i: nat)
    requires RateEntryKept(own) && i < |SourceLog(edges, ip, own)|
    ensures |Times(SourceLog(edges, ip, own))| == |SourceLog(edges, ip, own)|
    ensures SourceLog(edges, ip, own)[i].dropped <==> !Admitted(Times(SourceLog(edges, ip, own)), i)
  {
    var before := Init(own);
    var log := SourceLog(edges, ip, before);
    TimesLength(SourceLog(edges, ip, own));
    TimesLength(log);
    SourceFollowsLimiter(edges, ip, before, 0, 0);
    if i < |log| {
      DroppedIsLimited(edges, ip, before, i);
      TimesPrefix(log, SourceLog(edges, ip, own)[|log|..]);
      assert log + SourceLog(edges, ip, own)[|log|..] == SourceLog(edges, ip, own);
      assert Times(SourceLog(edges, ip, own))[..i] == Times(log)[..i];
    } else {
      var p := SourcePacket(edges, ip, SourceRun(edges, before), Last(own))[0];
      assert Init(log + [p]) == log;
      assert (Times(log) + [p.now])[..i] == Times(log);
    }
  }

  lemma {:induction false} TimesLength(log: seq<Packet>)
    ensures |Times(log)| == |log|
  {
    if log != [] {
      TimesLength(Init(log));
    }
  }

  lemma {:induction false} TimesPrefix(log: seq<Packet>, more: seq<Packet>)
    ensures Times(log) <= Times(log + more)
  {
    if more == [] {
      assert log + more == log;
    } else {
      assert Init(log + more) == log + Init(more);
      TimesPrefix(log, Init(more));
    }
  }

  /** A source that stays at or under 50 arrivals in every window length is never dropped. */
  lemma QuietSourceIsNeverDropped(edges: Edges, evs: seq<Event>, ip: Ip, i: nat)
    requires RateEntryKept(Own(evs, ip)) && i < |LogOf(Log(edges, evs), ip)|
    requires MonotoneClock(ArrivalTimes(edges, evs, ip))
    requires forall a: nat :: WindowArrivals(ArrivalTimes(edges, evs, ip), a) <= RATE_MAX_PER_WIN
    ensures !LogOf(Log(edges, evs), ip)[i].dropped
  {
    LogRefinesPerSource(edges, evs, ip);
    DroppedIsLimited(edges, ip, Own(evs, ip), i);
    NoFalseDrops(ArrivalTimes(edges, evs, ip), i);
  }

  /** Every drop has a window that some packet of the source opened and that held more than 50 arrivals. */
  lemma EveryDropIsDeserved(edges: Edges, evs: seq<Event>, ip: Ip, i: nat)
    requires RateEntryKept(Own(evs, ip)) && i < |LogOf(Log(edges, evs), ip)|
    requires MonotoneClock(ArrivalTimes(edges, evs, ip)) && CounterFits(ArrivalTimes(edges, evs, ip))
    requires LogOf(Log(edges, evs), ip)[i].dropped
    ensures exists start: nat :: start in ArrivalTimes(edges, evs, ip)
              && start <= LogOf(Log(edges, evs), ip)[i].now <= start + RATE_WINDOW_NS
              && WindowArrivals(ArrivalTimes(edges, evs, ip), start) > RATE_MAX_PER_WIN
  {
    LogRefinesPerSource(edges, evs, ip);
    DroppedIsLimited(edges, ip, Own(evs, ip), i);
    DropHasWitness(ArrivalTimes(edges, evs, ip), i);
    TimesAt(LogOf(Log(edges, evs), ip), i);
  }

  lemma {:induction false} TimesAt(log: seq<Packet>, i: nat)
    requires i < |log|
    ensures |Times(log)| == |log| && Times(log)[i] == log[i].now
  {
    TimesLength(log);
    TimesLength(Init(log));
    if i < |log| - 1 {
      TimesAt(Init(log), i);
    }
  }
}
