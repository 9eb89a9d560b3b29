/**
 * The XDP enforcer: every packet is parsed, categorised, checked against the
 * state machine, rate limited and counted.  The class at the end of the file is
 * the program; the functions before it are what it computes.
 */
module Enforcer {
  import opened Options
  import opened Numbers
  import opened CStrings
  import opened Frames
  import opened RateLimiter
  import opened SmMap

  /** Source IPv4 address, as the four key bytes. */
  type Ip = seq<Byte>

  datatype Verdict = XdpPass | XdpDrop

  const NGAP_PROC_INITIAL_UE_MESSAGE := 15
  const UE_GNB := "UE/gNB"
  const INITIAL_UE_MESSAGE := "InitialUEMessage"

  /** Only one procedure code is categorised. */
  function ProcedureLabel(code: nat): Option<string> {
    if code == NGAP_PROC_INITIAL_UE_MESSAGE then Some(INITIAL_UE_MESSAGE) else None
  }

  datatype UeVal = UeVal(state: NameBuf, lastSeen: nat)

  // ----- one source -----

  /** What the two maps hold for one source. */
  datatype Source = Source(ue: Option<UeVal>, rate: Option<RateEntry>)

  /** The state name of a source; a source without an entry is at UE/gNB. */
  function StateName(ue: Option<UeVal>): string {
    match ue
    case Some(v) => CStr(v.state)
    case None => UE_GNB
  }

  /** The edge that a label takes from the current state. */
  function EdgeFrom(edges: map<EdgeKey, NameBuf>, ue: Option<UeVal>, text: string): Option<NameBuf> {
    FindEdge(edges, StateName(ue), text)
  }

  /** The one that an InitialUEMessage takes. */
  function EdgeTaken(edges: map<EdgeKey, NameBuf>, ue: Option<UeVal>): Option<NameBuf> {
    EdgeFrom(edges, ue, INITIAL_UE_MESSAGE)
  }

  /** The state as `ue_state_set` stores it. */
  function StoredState(to: NameBuf): NameBuf {
    Padded(CStr(to), SM_NAME_MAX)
  }

  /** The state entry after a message that takes this edge, or none; `stored` says whether the map update succeeds. */
  function UeAfter(edge: Option<NameBuf>, ue: Option<UeVal>, now: nat, stored: bool): Option<UeVal> {
    match edge
    case Some(target) => if stored then Some(UeVal(StoredState(target), now)) else ue
    case None => ue
  }

  /** The state entry after an InitialUEMessage. */
  function UeStep(edges: map<EdgeKey, NameBuf>, ue: Option<UeVal>, now: nat, stored: bool): Option<UeVal> {
    UeAfter(EdgeTaken(edges, ue), ue, now, stored)
  }

  /** The limiter entry after it; only a first entry is inserted, later ones are updated in place. */
  function RateStep(rate: Option<RateEntry>, now: nat, stored: bool): Option<RateEntry> {
    if rate.None? && !stored then None else Some(Account(rate, now))
  }

  // ----- all sources -----

  datatype Stats = Stats(pass: nat, drop: nat, invalid: nat)

  datatype State = State(rate: map<Ip, RateEntry>, ue: map<Ip, UeVal>, stats: Stats)

  /** A packet, or the eviction of one entry by an LRU map. */
  datatype Event =
    | Arrive(frame: seq<Byte>, now: nat, ueStored: bool, rateStored: bool)
    | EvictUe(ip: Ip)
    | EvictRate(ip: Ip)

  /** A packet that reached categorisation, with what happened to it. */
  datatype Packet = Packet(ip: Ip, now: nat, labelled: bool, flagged: bool, dropped: bool)

  function Get<K, V>(m: map<K, V>, k: K): Option<V> {
    if k in m then Some(m[k]) else None
  }

  function Put<K, V>(m: map<K, V>, k: K, v: Option<V>): map<K, V> {
    match v
    case Some(x) => m[k := x]
    case None => m - {k}
  }

  function SourceOf(st: State, ip: Ip): Source {
    Source(Get(st.ue, ip), Get(st.rate, ip))
  }

  /** Counters are 64 bits wide. */
  function Bump(n: nat, hit: bool): (m: nat)
    ensures hit <==> m != n
    ensures hit && n < 0xffff_ffff_ffff_ffff ==> m == n + 1
    ensures hit && n == 0xffff_ffff_ffff_ffff ==> m == 0
  {
    if hit then (n + 1) % TWO64 else n
  }

  /** What happens to a packet whose header could be read. */
  function Treat(edges: map<EdgeKey, NameBuf>, st: State, h: NgapHeader, now: nat): Packet {
    if ProcedureLabel(h.code).None? then Packet(h.saddr, now, false, false, false)
    else Packet(h.saddr, now, true, EdgeTaken(edges, Get(st.ue, h.saddr)).None?, Limited(Get(st.rate, h.saddr), now))
  }

  function Count(stats: Stats, p: Packet): Stats {
    Stats(Bump(stats.pass, !p.dropped), Bump(stats.drop, p.dropped), Bump(stats.invalid, p.flagged))
  }

  function Absorb(edges: map<EdgeKey, NameBuf>, st: State, h: NgapHeader, now: nat, ueStored: bool,
                  rateStored: bool): State {
    var p := Treat(edges, st, h, now);
    if !p.labelled then st.(stats := Count(st.stats, p))
    else
      State(Put(st.rate, p.ip, RateStep(Get(st.rate, p.ip), now, rateStored)),
            Put(st.ue, p.ip, UeStep(edges, Get(st.ue, p.ip), now, ueStored)),
            Count(st.stats, p))
  }

  /** The packet of an event, if there is one and it reaches categorisation. */
  function Observe(edges: map<EdgeKey, NameBuf>, st: State, ev: Event): Option<Packet> {
    match ev
    case Arrive(frame, now, _, _) => (
      match EnforcerParse(frame)
      case Some(h) => Some(Treat(edges, st, h, now))
      case None => None)
    case _ => None
  }

  function Step(edges: map<EdgeKey, NameBuf>, st: State, ev: Event): State {
    match ev
    case Arrive(frame, now, ueStored, rateStored) => (
      match EnforcerParse(frame)
      case Some(h) => Absorb(edges, st, h, now, ueStored, rateStored)
      case None => st)
    case EvictUe(ip) => st.(ue := st.ue - {ip})
    case EvictRate(ip) => st.(rate := st.rate - {ip})
  }

  function VerdictOf(p: Option<Packet>): Verdict {
    if p.Some? && p.value.dropped then XdpDrop else XdpPass
  }

  // ----- the step in the numbers and names of the program -----

  /** The limiter's entry of the source is still within its window of one second. */
  predicate InWindow(rate: Option<RateEntry>, now: nat) {
    rate.Some? && (now - rate.value.windowStart) % 0x1_0000_0000_0000_0000 <= 1_000_000_000
  }

  /** The limiter: a verdict and an entry. */
  lemma LimiterInNumbers(rate: Option<RateEntry>, now: nat, stored: bool)
    ensures Limited(rate, now)
       <==> InWindow(rate, now) && (rate.value.count + 1) % 0x1_0000_0000 > 50
    ensures InWindow(rate, now) ==>
              RateStep(rate, now, stored)
              == Some(RateEntry(rate.value.windowStart, (rate.value.count + 1) % 0x1_0000_0000))
    ensures !InWindow(rate, now) ==>
              RateStep(rate, now, stored) == if rate.Some? || stored then Some(RateEntry(now, 1)) else None
  {
  }

  /** A frame that is not an NGAP one is let through and leaves no trace. */
  lemma OtherFramesPass(edges: map<EdgeKey, NameBuf>, st: State, ev: Event)
    requires ev.Arrive? && EnforcerParse(ev.frame).None?
    ensures Step(edges, st, ev) == st && VerdictOf(Observe(edges, st, ev)) == XdpPass
  {
  }

  /** An NGAP message of another procedure is let through and only counted. */
  lemma OtherProceduresPass(edges: map<EdgeKey, NameBuf>, st: State, ev: Event)
    requires ev.Arrive? && EnforcerParse(ev.frame).Some? && EnforcerParse(ev.frame).value.code != 15
    ensures Step(edges, st, ev)
         == State(st.rate, st.ue, Stats(Bump(st.stats.pass, true), st.stats.drop, st.stats.invalid))
    ensures VerdictOf(Observe(edges, st, ev)) == XdpPass
  {
  }

  /** What an InitialUEMessage of a source does: to its two entries, the counters, and the packet itself. */
  lemma InitialMessageInFull(edges: map<EdgeKey, NameBuf>, st: State, ev: Event)
    requires ev.Arrive? && EnforcerParse(ev.frame).Some? && EnforcerParse(ev.frame).value.code == 15
    ensures var src, st' := EnforcerParse(ev.frame).value.saddr, Step(edges, st, ev);
            var from := if src in st.ue then CStr(st.ue[src].state) else "UE/gNB";
            var key := EdgeKey(Padded(from, 32), Padded("InitialUEMessage", 48));
            var dropped := Limited(Get(st.rate, src), ev.now);
            && st'.rate == Put(st.rate, src, RateStep(Get(st.rate, src), ev.now, ev.rateStored))
            && st'.ue == (if key in edges && ev.ueStored
                          then st.ue[src := UeVal(Padded(CStr(edges[key]), 32), ev.now)] else st.ue)
            && VerdictOf(Observe(edges, st, ev)) == (if dropped then XdpDrop else XdpPass)
            && st'.stats.pass == Bump(st.stats.pass, !dropped)
            && st'.stats.drop == Bump(st.stats.drop, dropped)
            && st'.stats.invalid == Bump(st.stats.invalid, key !in edges)
  {
    var h := EnforcerParse(ev.frame).value;
    EdgeInFull(edges, Get(st.ue, h.saddr), ev.now, ev.ueStored);
    PutBack(st.ue, h.saddr);
  }

  lemma EdgeInFull(edges: map<EdgeKey, NameBuf>, ue: Option<UeVal>, now: nat, stored: bool)
    ensures var from := if ue.Some? then CStr(ue.value.state) else "UE/gNB";
            var key := EdgeKey(Padded(from, 32), Padded("InitialUEMessage", 48));
            && (EdgeTaken(edges, ue).None? <==> key !in edges)
            && UeStep(edges, ue, now, stored)
               == if key in edges && stored then Some(UeVal(Padded(CStr(edges[key]), 32), now)) else ue
  {
  }

  lemma PutBack<K, V>(m: map<K, V>, k: K)
    ensures Put(m, k, Get(m, k)) == m
  {
  }

  /**
   * The verdict shows in the state: it is a drop just when the drop counter moves, and then
   * the entry counts more than 50 packets in a window that is not over.
   */
  lemma VerdictShows(edges: map<EdgeKey, NameBuf>, st: State, ev: Event)
    requires ev.Arrive?
    ensures VerdictOf(Observe(edges, st, ev)) == XdpDrop <==> Step(edges, st, ev).stats.drop != st.stats.drop
    ensures VerdictOf(Observe(edges, st, ev)) == XdpDrop ==>
              && |ev.frame| >= 34 && EnforcerParse(ev.frame) == Some(NgapHeader(ev.frame[26..30], 15))
              && var entry := Get(Step(edges, st, ev).rate, ev.frame[26..30]);
              InWindow(entry, ev.now) && entry.value.count > 50
  {
    match EnforcerParse(ev.frame) {
      case None => OtherFramesPass(edges, st, ev);
      case Some(h) =>
        ParsedExactly(ev.frame, h);
        if h.code != 15 {
          OtherProceduresPass(edges, st, ev);
        } else {
          InitialMessageInFull(edges, st, ev);
          LimiterInNumbers(Get(st.rate, h.saddr), ev.now, ev.rateStored);
        }
    }
  }

  const START := State(map[], map[], Stats(0, 0, 0))

  // ----- the program -----

  class XdpEnforcer {
    const maps: SmMaps
    var rate: map<Ip, RateEntry>
    var ue: map<Ip, UeVal>
    const stats: array<nat>

    const STAT_PASS: nat := 0
    const STAT_DROP: nat := 1
    const STAT_STATE_INVALID: nat := 2
    const STAT_MAX: nat := 3

    ghost predicate Valid() {
      stats.Length == STAT_MAX
    }

    ghost function Counters(): (c: Stats)
      reads stats
      requires Valid()
      ensures c == Stats(stats[0], stats[1], stats[2])
    {
      Stats(stats[STAT_PASS], stats[STAT_DROP], stats[STAT_STATE_INVALID])
    }

    ghost function Abs(): State
      reads this, stats
      requires Valid()
    {
      State(rate, ue, Counters())
    }

    /** Private maps start empty and counters at zero; the edge map is shared. */
    constructor (maps: SmMaps)
      ensures Valid() && fresh(stats) && this.maps == maps && Abs() == START
    {
      this.maps := maps;
      rate, ue := map[], map[];
      stats := new nat[STAT_MAX](i => 0);
    }

    method BumpStat(idx: nat)
      requires Valid() && idx < STAT_MAX
      modifies stats
      ensures stats[..] == old(stats[..])[idx := (old(stats[idx]) + 1) % TWO64]
    {
      stats[idx] := (stats[idx] + 1) % TWO64;
    }

    method UeStateSet(key: Ip, state: NameBuf, now: nat, stored: bool)
      modifies this`ue
      ensures ue == if stored then old(ue)[key := UeVal(StoredState(state), now)] else old(ue)
    {
      var buf := KernelKey(state, SM_NAME_MAX);
      if stored {
        ue := ue[key := UeVal(buf, now)];
      }
    }

    /** The state of the source as the lookup reads it, from the map or the literal. */
    method StateOf(src: Ip) returns (mem: string)
      ensures CStr(mem) == StateName(Get(ue, src))
      ensures NUL in mem || SM_NAME_MAX - 1 <= |mem|
    {
      mem := if src in ue then ue[src].state else Terminated(UE_GNB);
    }

    /** Looks up the transition from the state of the source and advances it, or says that there is none. */
    method TrackState(src: Ip, text: string, now: nat, stored: bool) returns (flagged: bool)
      requires NUL !in text
      modifies this`ue
      ensures flagged == EdgeFrom(maps.edges, old(Get(ue, src)), text).None?
      ensures var was := old(Get(ue, src));
              ue == Put(old(ue), src, UeAfter(EdgeFrom(maps.edges, was, text), was, now, stored))
    {
      var fromState := StateOf(src);
      var edge := maps.TransitionLookup(fromState, Terminated(text));
      flagged := edge.None?;
      if edge.Some? {
        UeStateSet(src, edge.value, now, stored);
      }
    }

    method RateLimited(src: Ip, now: nat, stored: bool) returns (limited: bool)
      modifies this`rate
      ensures limited == Limited(old(Get(rate, src)), now)
      ensures rate == Put(old(rate), src, RateStep(old(Get(rate, src)), now, stored))
    {
      if src !in rate {
        if stored {
          rate := rate[src := RateEntry(now, 1)];
        }
        return false;
      }
      if (now - rate[src].windowStart) % TWO64 > RATE_WINDOW_NS {
        rate := rate[src := rate[src].(windowStart := now)];
        rate := rate[src := rate[src].(count := 1)];
        return false;
      }
      rate := rate[src := rate[src].(count := (rate[src].count + 1) % TWO32)];
      limited := rate[src].count > RATE_MAX_PER_WIN;
    }

    /** Steps from header to header to the source address and the procedure code, or out of the frame. */
    method ReadHeaders(frame: seq<Byte>) returns (h: Option<NgapHeader>)
      ensures h == EnforcerParse(frame)
    {
      if ETH_HLEN > |frame| {
        return None;
      }
      if Be16(frame[12], frame[13]) != ETH_P_IP {
        return None;
      }
      var iph := ETH_HLEN;
      if iph + IPV4_HLEN > |frame| || frame[iph + 9] != IPPROTO_SCTP {
        return None;
      }
      var sctp := iph + frame[iph] % 16 * 4;
      if sctp + SCTP_HLEN > |frame| {
        return None;
      }
      var chunk := sctp + SCTP_HLEN;
      if chunk + CHUNK_HLEN > |frame| {
        return None;
      }
      if frame[chunk] != SCTP_DATA || Be32(frame[chunk + 12..chunk + 16]) != SCTP_PPID_NGAP {
        return None;
      }
      var ngap := chunk + CHUNK_HLEN;
      if ngap + NGAP_MIN > |frame| {
        return None;
      }
      return Some(NgapHeader(frame[iph + 12..iph + 16], Be16(frame[ngap], frame[ngap + 1])));
    }

    /**
     * `amf_xdp_enforce`: the verdict and the whole new state are those of one step.  A drop is returned
     * just when the drop counter moves, and then for a source with more than 50 packets in its window.
     */
    method Enforce(frame: seq<Byte>, now: nat, ueStored: bool, rateStored: bool) returns (verdict: Verdict)
      requires Valid()
      modifies this, stats
      ensures Abs() == Step(maps.edges, old(Abs()), Arrive(frame, now, ueStored, rateStored))
      ensures verdict == VerdictOf(Observe(maps.edges, old(Abs()), Arrive(frame, now, ueStored, rateStored)))
      ensures verdict == XdpDrop <==> stats[1] != old(stats[1])
      ensures verdict == XdpDrop ==>
                && |frame| >= 34
                && var entry := Get(rate, frame[26..30]); InWindow(entry, now) && entry.value.count > 50
      ensures maps.edges == old(maps.edges)
    {
      VerdictShows(maps.edges, Abs(), Arrive(frame, now, ueStored, rateStored));
      var h := ReadHeaders(frame);
      if h.None? {
        return XdpPass;
      }
      verdict := Categorised(h.value.saddr, h.value.code, now, ueStored, rateStored);
    }

    /** The rest for a packet with a label: the state, then the limiter, then the counters. */
    method Labelled(srcIp: Ip, code: nat, text: string, now: nat, ueStored: bool, rateStored: bool)
      returns (verdict: Verdict)
      requires Valid() && NUL !in text && code == NGAP_PROC_INITIAL_UE_MESSAGE
      modifies this, stats
      ensures var ue, rate := old(Get(this.ue, srcIp)), old(Get(this.rate, srcIp));
              var edge := EdgeFrom(maps.edges, ue, text);
              && this.ue == Put(old(this.ue), srcIp, UeAfter(edge, ue, now, ueStored))
              && this.rate == Put(old(this.rate), srcIp, RateStep(rate, now, rateStored))
              && Counters() == Count(old(Counters()), Packet(srcIp, now, true, edge.None?, Limited(rate, now)))
              && verdict == if Limited(rate, now) then XdpDrop else XdpPass
      ensures maps.edges == old(maps.edges)
    {
      var flagged := TrackState(srcIp, text, now, ueStored);
      if flagged {
        BumpStat(STAT_STATE_INVALID);
      }
      if code == NGAP_PROC_INITIAL_UE_MESSAGE {
        var limited := RateLimited(srcIp, now, rateStored);
        if limited {
          BumpStat(STAT_DROP);
          return XdpDrop;
        }
      }
      BumpStat(STAT_PASS);
      return XdpPass;
    }

    /** The part of `amf_xdp_enforce` after the procedure code is known. */
    method Categorised(srcIp: Ip, code: nat, now: nat, ueStored: bool, rateStored: bool) returns (verdict: Verdict)
      requires Valid()
      modifies this, stats
      ensures Abs() == Absorb(maps.edges, old(Abs()), NgapHeader(srcIp, code), now, ueStored, rateStored)
      ensures verdict == VerdictOf(Some(Treat(maps.edges, old(Abs()), NgapHeader(srcIp, code), now)))
      ensures verdict == XdpDrop <==> stats[1] != old(stats[1])
      ensures maps.edges == old(maps.edges)
    {
      var label' := ProcedureLabel(code);
      if label'.None? {
        BumpStat(STAT_PASS);
        return XdpPass;
      }
      verdict := Labelled(srcIp, code, label'.value, now, ueStored, rateStored);
    }
  }
}
