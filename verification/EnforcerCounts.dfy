/** What the counters and the stored states of the enforcer mean over whole runs. */
module EnforcerCounts {
  import opened Options
  import opened Numbers
  import opened Sequences
  import opened CStrings
  import opened Frames
  import opened RateLimiter
  import opened SmMap
  import opened Enforcer
  import opened EnforcerRuns
  import SM = StateMachine
  import FsmRuns

  // ----- counters -----

  datatype Totals = Totals(passed: nat, dropped: nat, flagged: nat, labelled: nat)

  function Plus(t: Totals, p: Packet): Totals {
    Totals(t.passed + One(!p.dropped), t.dropped + One(p.dropped), t.flagged + One(p.flagged),
           t.labelled + One(p.labelled))
  }

  /** How many packets of a log were passed, dropped, flagged and labelled. */
  function TotalsOf(log: seq<Packet>): Totals {
    if log == [] then Totals(0, 0, 0, 0) else Plus(TotalsOf(Init(log)), Last(log))
  }

  lemma TotalsAppend(log: seq<Packet>, p: Packet)
    ensures TotalsOf(log + [p]) == Plus(TotalsOf(log), p)
  {
    assert Init(log + [p]) == log;
  }

  lemma {:induction false} TotalsAddUp(log: seq<Packet>)
    requires forall i :: 0 <= i < |log| && log[i].flagged ==> log[i].labelled
    ensures TotalsOf(log).passed + TotalsOf(log).dropped == |log|
    ensures TotalsOf(log).flagged <= TotalsOf(log).labelled
  {
    if log != [] {
      TotalsAddUp(Init(log));
    }
  }

  ghost predicate StatsCount(stats: Stats, t: Totals) {
    stats.pass == t.passed % TWO64 && stats.drop == t.dropped % TWO64 && stats.invalid == t.flagged % TWO64
  }

  lemma BumpCounts(n: nat, hit: bool)
    ensures Bump(n % TWO64, hit) == (n + One(hit)) % TWO64
  {
  }

  lemma CountStep(stats: Stats, t: Totals, p: Packet)
    requires StatsCount(stats, t)
    ensures StatsCount(Count(stats, p), Plus(t, p))
  {
    BumpCounts(t.passed, !p.dropped);
    BumpCounts(t.dropped, p.dropped);
    BumpCounts(t.flagged, p.flagged);
  }

  /** What the counters say of `n` categorised packets. */
  ghost predicate Conserved(stats: Stats, t: Totals, n: nat) {
    && StatsCount(stats, t)
    && t.passed + t.dropped == n
    && (stats.pass + stats.drop) % TWO64 == n % TWO64
    && stats.invalid <= t.flagged <= t.labelled
  }

  lemma SumsModulo(a: nat, b: nat)
    ensures (a % TWO64 + b % TWO64) % TWO64 == (a + b) % TWO64
  {
  }

  lemma StatsAddUp(stats: Stats, t: Totals, n: nat)
    requires StatsCount(stats, t) && t.passed + t.dropped == n && t.flagged <= t.labelled
    ensures Conserved(stats, t, n)
  {
    SumsModulo(t.passed, t.dropped);
  }

  /**
   * In every reachable state the 64-bit counters hold, modulo 2^64, the passed, the
   * dropped and the flagged packets; passed and dropped together are the packets that
   * reached categorisation, and the flagged never exceed the labelled.
   */
  lemma CountersConserve(edges: Edges, evs: seq<Event>)
    ensures Conserved(Run(edges, evs).stats, TotalsOf(Log(edges, evs)), |Log(edges, evs)|)
  {
    StatsFollowLog(edges, evs);
    FlaggedAreLabelled(edges, evs);
    TotalsAddUp(Log(edges, evs));
    StatsAddUp(Run(edges, evs).stats, TotalsOf(Log(edges, evs)), |Log(edges, evs)|);
  }

  /** What is returned for the packets of a run, in order. */
  function Verdicts(edges: Edges, evs: seq<Event>): seq<Verdict> {
    if evs == [] then []
    else
      var before, ev := Init(evs), Last(evs);
      Verdicts(edges, before) + if ev.Arrive? then [VerdictOf(Observe(edges, Run(edges, before), ev))] else []
  }

  /** The drop counter is the number of packets that were answered by XDP_DROP, modulo 2^64. */
  lemma {:induction false} DropsAreCounted(edges: Edges, evs: seq<Event>)
    ensures Run(edges, evs).stats.drop == multiset(Verdicts(edges, evs))[XdpDrop] % 0x1_0000_0000_0000_0000
  {
    if evs != [] {
      var before, ev := Init(evs), Last(evs);
      var st := Run(edges, before);
      DropsAreCounted(edges, before);
      if ev.Arrive? {
        var v := VerdictOf(Observe(edges, st, ev));
        DropStep(edges, st, ev);
        DropsMove(st.stats, Step(edges, st, ev).stats, v, Verdicts(edges, before));
      } else {
        assert Verdicts(edges, evs) == Verdicts(edges, before);
      }
    }
  }

  lemma DropStep(edges: Edges, st: State, ev: Event)
    requires ev.Arrive?
    ensures Step(edges, st, ev).stats.drop == Bump(st.stats.drop, VerdictOf(Observe(edges, st, ev)) == XdpDrop)
  {
  }

  lemma DropsMove(was: Stats, now: Stats, v: Verdict, before: seq<Verdict>)
    requires now.drop == Bump(was.drop, v == XdpDrop)
    requires was.drop == multiset(before)[XdpDrop] % 0x1_0000_0000_0000_0000
    ensures now.drop == multiset(before + [v])[XdpDrop] % 0x1_0000_0000_0000_0000
  {
    BumpCounts(multiset(before)[XdpDrop], v == XdpDrop);
    assert multiset(before + [v]) == multiset(before) + multiset{v};
  }

  lemma {:induction false} StatsFollowLog(edges: Edges, evs: seq<Event>)
    ensures StatsCount(Run(edges, evs).stats, TotalsOf(Log(edges, evs)))
  {
    if evs != [] {
      var before, ev := Init(evs), Last(evs);
      StatsFollowLog(edges, before);
      var log, st := Log(edges, before), Run(edges, before);
      match Observe(edges, st, ev) {
        case Some(p) =>
          CountStep(st.stats, TotalsOf(log), p);
          TotalsAppend(log, p);
        case None => assert log + [] == log;
      }
    }
  }

  lemma {:induction false} FlaggedAreLabelled(edges: Edges, evs: seq<Event>)
    ensures forall i :: 0 <= i < |Log(edges, evs)| && Log(edges, evs)[i].flagged ==> Log(edges, evs)[i].labelled
  {
    if evs != [] {
      FlaggedAreLabelled(edges, Init(evs));
    }
  }

  // ----- states -----

  /** The entry of this source is never evicted from the state map, and its updates succeed. */
  ghost predicate UeEntryKept(own: seq<Event>) {
    forall i :: 0 <= i < |own| ==> !own[i].EvictUe? && (own[i].Arrive? ==> own[i].ueStored)
  }

  /** The state name after a sequence of labels, by lookups in the edge map; labels without an edge are skipped. */
  function Walk(edges: Edges, name: string, labels: seq<string>): string {
    if labels == [] then name
    else
      var before := Walk(edges, name, Init(labels));
      NameAfter(FindEdge(edges, before, Last(labels)), before)
  }

  /** The labels of the packets among the events of one source. */
  function Labels(own: seq<Event>): seq<string> {
    if own == [] then [] else Labels(Init(own)) + if Last(own).Arrive? then [INITIAL_UE_MESSAGE] else []
  }

  lemma {:induction false} SourceFollowsWalk(edges: Edges, own: seq<Event>)
    requires UeEntryKept(own)
    ensures StateName(SourceRun(edges, own).ue) == Walk(edges, UE_GNB, Labels(own))
  {
    if own != [] {
      SourceFollowsWalk(edges, Init(own));
      if Last(own).Arrive? {
        var labels := Labels(Init(own));
        assert Init(labels + [INITIAL_UE_MESSAGE]) == labels;
      } else {
        assert Labels(Init(own)) + [] == Labels(Init(own));
      }
    }
  }

  /**
   * The stored state of a source is the fold of the partial transition function of
   * the edge map, whatever it holds, over the source's own labels.
   */
  lemma StateIsFoldOfOwnLabels(edges: Edges, evs: seq<Event>, ip: Ip)
    requires UeEntryKept(Own(evs, ip))
    ensures StateName(Get(Run(edges, evs).ue, ip)) == Walk(edges, UE_GNB, Labels(Own(evs, ip)))
  {
    StateRefinesPerSource(edges, evs, ip);
    SourceFollowsWalk(edges, Own(evs, ip));
  }

  function Texts(events: seq<SM.Label>): seq<string> {
    if events == [] then [] else Texts(Init(events)) + [SM.Text(Last(events))]
  }

  /** With the edge map populated, lookups by name walk the state machine. */
  lemma {:induction false} WalkIsTrack(edges: Edges, s: SM.Node, events: seq<SM.Label>)
    requires HoldsEdgeTable(edges)
    ensures Walk(edges, SM.Name(s), Texts(events)) == SM.Name(FsmRuns.Track(s, events))
  {
    if events != [] {
      var before := Init(events);
      WalkIsTrack(edges, s, before);
      assert Init(Texts(before) + [SM.Text(Last(events))]) == Texts(before);
      var now := FsmRuns.Track(s, before);
      assert FsmRuns.Track(s, events) == FsmRuns.Advance(now, Last(events));
      StepByName(edges, now, Last(events));
    }
  }

  lemma StepByName(edges: Edges, now: SM.Node, event: SM.Label)
    requires HoldsEdgeTable(edges)
    ensures NameAfter(FindEdge(edges, SM.Name(now), SM.Text(event)), SM.Name(now))
         == SM.Name(FsmRuns.Advance(now, event))
  {
    TransitionLookupIsNext(edges, now, event);
    NextNameReadsBack(SM.Next(now, event), now);
  }

  /** The state name after a lookup: that of the target, or the old one. */
  function NameAfter(found: Option<NameBuf>, before: string): string {
    match found
    case Some(target) => CStr(StoredState(target))
    case None => before
  }

  lemma NextNameReadsBack(next: Option<SM.Node>, now: SM.Node)
    ensures NameAfter(NameOfNext(next), SM.Name(now)) == SM.Name(if next.Some? then next.value else now)
  {
    if next.Some? {
      StoredNameReadsBack(next.value);
    }
  }

  lemma StoredNameReadsBack(d: SM.Node)
    ensures CStr(StoredState(NameKey(SM.Name(d)))) == SM.Name(d)
  {
    TargetReadsBack(d);
  }

  /** The labels of a source's packets, as labels of the machine: one InitialUEMessage each. */
  function OwnLabels(own: seq<Event>): seq<SM.Label> {
    if own == [] then [] else OwnLabels(Init(own)) + if Last(own).Arrive? then [SM.InitialUEMessage] else []
  }

  lemma {:induction false} OwnTexts(own: seq<Event>)
    ensures Texts(OwnLabels(own)) == Labels(own)
  {
    if own != [] {
      var labels := OwnLabels(Init(own));
      OwnTexts(Init(own));
      if Last(own).Arrive? {
        TextsAppend(labels, SM.InitialUEMessage);
        assert SM.Text(SM.InitialUEMessage) == INITIAL_UE_MESSAGE;
      } else {
        assert labels + [] == labels && Labels(Init(own)) + [] == Labels(Init(own));
      }
    }
  }

  lemma TextsAppend(labels: seq<SM.Label>, event: SM.Label)
    ensures Texts(labels + [event]) == Texts(labels) + [SM.Text(event)]
  {
    assert Init(labels + [event]) == labels;
  }

  /** With the edge map populated, a source's stored state is that of the machine run from UE/gNB on its own labels. */
  lemma StateIsMachineState(edges: Edges, evs: seq<Event>, ip: Ip)
    requires HoldsEdgeTable(edges) && UeEntryKept(Own(evs, ip))
    ensures StateName(Get(Run(edges, evs).ue, ip)) == SM.Name(FsmRuns.Track(SM.UeGnb, OwnLabels(Own(evs, ip))))
  {
    var own := Own(evs, ip);
    StateIsFoldOfOwnLabels(edges, evs, ip);
    WalkIsTrack(edges, SM.UeGnb, OwnLabels(own));
    OwnTexts(own);
    AccessName();
  }

  lemma AccessName()
    ensures SM.Name(SM.UeGnb) == UE_GNB
  {
  }

  // ----- flagged packets -----

  function Registered(): NameBuf {
    NameKey(SM.Name(SM.RegReceived))
  }

  /** Every entry of the state map says REG_RECEIVED: the one state an InitialUEMessage leads to. */
  ghost predicate AllRegistered(st: State) {
    forall ip :: ip in st.ue ==> st.ue[ip].state == Registered()
  }

  lemma FirstMessageRegisters(edges: Edges, ue: Option<UeVal>)
    requires HoldsEdgeTable(edges) && (ue.Some? ==> ue.value.state == Registered())
    ensures EdgeTaken(edges, ue) == if ue.None? then Some(Registered()) else None
  {
    assert UE_GNB == SM.Name(SM.UeGnb) && INITIAL_UE_MESSAGE == SM.Text(SM.InitialUEMessage);
    TransitionLookupIsNext(edges, SM.UeGnb, SM.InitialUEMessage);
    TransitionLookupIsNext(edges, SM.RegReceived, SM.InitialUEMessage);
    TargetReadsBack(SM.RegReceived);
  }

  /** Every update of the state map succeeds. */
  ghost predicate AllStored(evs: seq<Event>) {
    forall i :: 0 <= i < |evs| && evs[i].Arrive? ==> evs[i].ueStored
  }

  /** Number of evictions that removed an entry of the state map. */
  function Evicted(edges: Edges, evs: seq<Event>): nat {
    if evs == [] then 0
    else Evicted(edges, Init(evs)) + One(Last(evs).EvictUe? && Last(evs).ip in Run(edges, Init(evs)).ue)
  }

  ghost predicate Balanced(st: State, t: Totals, evicted: nat) {
    AllRegistered(st) && t.labelled == t.flagged + |st.ue| + evicted
  }

  /** A labelled packet is flagged exactly when its source has an entry. */
  lemma LabelledIsFlagged(edges: Edges, st: State, h: NgapHeader, now: nat)
    requires HoldsEdgeTable(edges) && AllRegistered(st) && ProcedureLabel(h.code).Some?
    ensures var p := Treat(edges, st, h, now);
            p.labelled && p.ip == h.saddr && (p.flagged <==> h.saddr in st.ue)
  {
    RegistersOnce(edges, Get(st.ue, h.saddr), now);
  }

  /** And after it its source has one, registered like all. */
  lemma LabelledIsStored(edges: Edges, st: State, h: NgapHeader, now: nat, rateStored: bool)
    requires HoldsEdgeTable(edges) && AllRegistered(st) && ProcedureLabel(h.code).Some?
    ensures var after := Absorb(edges, st, h, now, true, rateStored);
            && AllRegistered(after)
            && after.ue.Keys == st.ue.Keys + {h.saddr} && |after.ue| == |st.ue| + One(h.saddr !in st.ue)
  {
    var step := UeStep(edges, Get(st.ue, h.saddr), now, true);
    RegistersOnce(edges, Get(st.ue, h.saddr), now);
    StaysRegistered(st.ue, h.saddr, step, Registered());
    UesAfter(st.ue, h.saddr, step);
    assert Absorb(edges, st, h, now, true, rateStored).ue == Put(st.ue, h.saddr, step);
  }

  lemma StaysRegistered(ue: map<Ip, UeVal>, ip: Ip, v: Option<UeVal>, state: NameBuf)
    requires (forall x :: x in ue ==> ue[x].state == state) && v.Some? && v.value.state == state
    ensures forall x :: x in Put(ue, ip, v) ==> Put(ue, ip, v)[x].state == state
  {
  }

  lemma BalanceOfPacket(edges: Edges, st: State, t: Totals, evicted: nat, h: NgapHeader, now: nat, rateStored: bool)
    requires HoldsEdgeTable(edges) && Balanced(st, t, evicted)
    ensures Balanced(Absorb(edges, st, h, now, true, rateStored), Plus(t, Treat(edges, st, h, now)), evicted)
  {
    if ProcedureLabel(h.code).Some? {
      LabelledIsFlagged(edges, st, h, now);
      LabelledIsStored(edges, st, h, now, rateStored);
    }
  }

  /** The first InitialUEMessage of a source registers it unflagged; every later one is flagged and changes nothing. */
  lemma RegistersOnce(edges: Edges, ue: Option<UeVal>, now: nat)
    requires HoldsEdgeTable(edges) && (ue.Some? ==> ue.value.state == Registered())
    ensures EdgeTaken(edges, ue).None? <==> ue.Some?
    ensures UeStep(edges, ue, now, true) == if ue.None? then Some(UeVal(Registered(), now)) else ue
  {
    FirstMessageRegisters(edges, ue);
    RegisteredReadsBack();
  }

  lemma UesAfter(ue: map<Ip, UeVal>, ip: Ip, v: Option<UeVal>)
    requires v.Some?
    ensures Put(ue, ip, v).Keys == ue.Keys + {ip} && |Put(ue, ip, v)| == |ue| + One(ip !in ue)
  {
    assert Put(ue, ip, v).Keys == ue.Keys + {ip};
  }

  lemma RegisteredReadsBack()
    ensures StoredState(Registered()) == Registered()
  {
    SM.NamesFit(SM.RegReceived);
    TargetReadsBack(SM.RegReceived);
  }

  lemma BalanceOfEviction(edges: Edges, st: State, t: Totals, evicted: nat, ip: Ip)
    requires Balanced(st, t, evicted)
    ensures Balanced(Step(edges, st, EvictUe(ip)), t, evicted + One(ip in st.ue))
  {
    assert (st.ue - {ip}).Keys == st.ue.Keys - {ip};
  }

  lemma BalanceOfEvent(edges: Edges, st: State, log: seq<Packet>, evicted: nat, ev: Event)
    requires HoldsEdgeTable(edges) && Balanced(st, TotalsOf(log), evicted) && (ev.Arrive? ==> ev.ueStored)
    ensures Balanced(Step(edges, st, ev), TotalsOf(log + Emitted(edges, st, ev)),
                     evicted + One(ev.EvictUe? && ev.ip in st.ue))
  {
    match Observe(edges, st, ev) {
      case Some(p) =>
        BalanceOfPacket(edges, st, TotalsOf(log), evicted, EnforcerParse(ev.frame).value, ev.now, ev.rateStored);
        TotalsAppend(log, p);
      case None =>
        assert log + [] == log;
        if ev.EvictUe? {
          BalanceOfEviction(edges, st, TotalsOf(log), evicted, ev.ip);
        }
    }
  }

  /**
   * With the edges populated and all updates stored, the flagged packets are the
   * labelled ones less the entries ever created: those still there and those evicted.
   */
  lemma {:induction false} FlagsCountRepeats(edges: Edges, evs: seq<Event>)
    requires HoldsEdgeTable(edges) && AllStored(evs)
    ensures Balanced(Run(edges, evs), TotalsOf(Log(edges, evs)), Evicted(edges, evs))
  {
    if evs != [] {
      var before := Init(evs);
      FlagsCountRepeats(edges, before);
      BalanceOfEvent(edges, Run(edges, before), Log(edges, before), Evicted(edges, before), Last(evs));
    }
  }

  /** The sources of the labelled packets of a log. */
  function Sources(log: seq<Packet>): set<Ip> {
    if log == [] then {} else Sources(Init(log)) + if Last(log).labelled then {Last(log).ip} else {}
  }

  lemma SourceOfPacket(edges: Edges, st: State, log: seq<Packet>, h: NgapHeader, now: nat, rateStored: bool)
    requires HoldsEdgeTable(edges) && AllRegistered(st) && st.ue.Keys == Sources(log)
    ensures Absorb(edges, st, h, now, true, rateStored).ue.Keys == Sources(log + [Treat(edges, st, h, now)])
  {
    SourcesAppend(log, Treat(edges, st, h, now));
    if ProcedureLabel(h.code).Some? {
      LabelledIsFlagged(edges, st, h, now);
      LabelledIsStored(edges, st, h, now, rateStored);
    }
  }

  lemma {:induction false} SourcesAreStored(edges: Edges, evs: seq<Event>)
    requires HoldsEdgeTable(edges) && AllStored(evs) && forall i :: 0 <= i < |evs| ==> !evs[i].EvictUe?
    ensures Run(edges, evs).ue.Keys == Sources(Log(edges, evs)) && Evicted(edges, evs) == 0
  {
    if evs != [] {
      var before, ev := Init(evs), Last(evs);
      SourcesAreStored(edges, before);
      FlagsCountRepeats(edges, before);
      var st, log := Run(edges, before), Log(edges, before);
      match Observe(edges, st, ev) {
        case Some(p) => SourceOfPacket(edges, st, log, EnforcerParse(ev.frame).value, ev.now, ev.rateStored);
        case None => assert log + [] == log;
      }
    }
  }

  lemma SourcesAppend(log: seq<Packet>, p: Packet)
    ensures Sources(log + [p]) == Sources(log) + if p.labelled then {p.ip} else {}
  {
    assert Init(log + [p]) == log;
  }

  /** Without eviction: N labelled packets from D sources give exactly N - D flags. */
  lemma FlagsAreAllButFirst(edges: Edges, evs: seq<Event>)
    requires HoldsEdgeTable(edges) && AllStored(evs) && forall i :: 0 <= i < |evs| ==> !evs[i].EvictUe?
    ensures var log := Log(edges, evs);
            var repeats := TotalsOf(log).labelled - |Sources(log)|;
            TotalsOf(log).flagged == repeats && Run(edges, evs).stats.invalid == repeats % TWO64
  {
    FlagsCountRepeats(edges, evs);
    SourcesAreStored(edges, evs);
    StatsFollowLog(edges, evs);
  }
}
