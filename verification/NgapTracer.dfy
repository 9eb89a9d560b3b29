/**
 * The passive XDP tracer: a second parser of the same frames, written
 * separately, that reports what it sees in a ring buffer.
 */
module NgapTracer {
  import opened Options
  import opened Numbers
  import opened Sequences
  import opened Frames

  const RAW_MAX := 1480

  datatype XdpEvent =
    | NgapEvent(saddr: seq<Byte>, daddr: seq<Byte>, sport: nat, dport: nat, chunkLen: nat, code: nat, criticality: Byte)
    | OtherEvent(saddr: seq<Byte>, daddr: seq<Byte>, raw: seq<Byte>)

  /** The frame has an IPv4-sized header after the Ethernet one; its type is not looked at. */
  predicate HasIpHeader(frame: seq<Byte>) {
    ETH_HLEN + IPV4_HLEN <= |frame|
  }

  predicate IsSctp(frame: seq<Byte>)
    requires HasIpHeader(frame)
  {
    frame[23] == IPPROTO_SCTP
  }

  function ChunkAt(frame: seq<Byte>): nat
    requires HasIpHeader(frame)
  {
    ETH_HLEN + 4 * (frame[ETH_HLEN] % 16) + SCTP_HLEN
  }

  /** An SCTP DATA chunk of NGAP type with its first 16 payload bytes is inside the frame. */
  predicate HasNgapChunk(frame: seq<Byte>)
    requires HasIpHeader(frame)
  {
    var c := ChunkAt(frame);
    && c + CHUNK_HLEN + NGAP_MIN <= |frame|
    && frame[c] == SCTP_DATA
    && frame[c + 12..c + 16] == [0, 0, 0, SCTP_PPID_NGAP]
  }

  /** The report of a frame, given room in the ring buffer; `loaded` says whether the raw bytes can be copied. */
  function Report(frame: seq<Byte>, loaded: bool): Option<XdpEvent> {
    if !HasIpHeader(frame) then None
    else if IsSctp(frame) then
      if HasNgapChunk(frame) then
        var c := ChunkAt(frame);
        Some(NgapEvent(frame[26..30], frame[30..34],
                       Be16(frame[c - 12], frame[c - 11]), Be16(frame[c - 10], frame[c - 9]),
                       Be16(frame[c + 2], frame[c + 3]),
                       Be16(frame[c + 16], frame[c + 17]), frame[c + 18]))
      else None
    else Some(OtherEvent(frame[26..30], frame[30..34],
                         if loaded then frame[ETH_HLEN..ETH_HLEN + Min(|frame| - ETH_HLEN, RAW_MAX)] else []))
  }

  class XdpTracer {
    var events: seq<XdpEvent>

    /** `handle_sctp`; `room` says whether a ring-buffer slot can be reserved. */
    method HandleSctp(frame: seq<Byte>, iph: nat, room: bool)
      requires iph == ETH_HLEN && HasIpHeader(frame) && IsSctp(frame)
      modifies this
      ensures events == old(events) + if room && HasNgapChunk(frame) then [Report(frame, true).value] else []
    {
      var sctp := iph + frame[iph] % 16 * 4;
      if sctp + SCTP_HLEN > |frame| {
        return;
      }
      var chunk := sctp + SCTP_HLEN;
      if chunk + CHUNK_HLEN > |frame| {
        return;
      }
      var chunkType := frame[chunk];
      var chunkLen := Be16(frame[chunk + 2], frame[chunk + 3]);
      var ppid := Be32(frame[chunk + 12..chunk + 16]);
      if chunkType != SCTP_DATA {
        return;
      }
      if ppid != SCTP_PPID_NGAP {
        return;
      }
      PpidBytes(frame[chunk + 12..chunk + 16]);
      var ngap := chunk + CHUNK_HLEN;
      if ngap + 16 > |frame| {
        return;
      }
      var b0, b1, b2 := frame[ngap], frame[ngap + 1], frame[ngap + 2];
      if room {
        var e := NgapEvent(frame[iph + 12..iph + 16], frame[iph + 16..iph + 20],
                           Be16(frame[sctp], frame[sctp + 1]), Be16(frame[sctp + 2], frame[sctp + 3]),
                           chunkLen, Be16(b0, b1), b2);
        events := events + [e];
      }
    }

    /** `handle_other`: anything that is not SCTP, as raw bytes from the IP header on. */
    method HandleOther(frame: seq<Byte>, iph: nat, room: bool, loaded: bool)
      requires iph == ETH_HLEN && HasIpHeader(frame) && !IsSctp(frame)
      modifies this
      ensures events == old(events) + if room then [Report(frame, loaded).value] else []
    {
      if room {
        var raw: seq<Byte> := [];
        var avail := |frame| - iph;
        var want := if avail < RAW_MAX then avail else RAW_MAX;
        if want > 0 && loaded {
          raw := frame[iph..iph + want];
        }
        events := events + [OtherEvent(frame[iph + 12..iph + 16], frame[iph + 16..iph + 20], raw)];
      }
    }

    /** `xdp_prog`: at most one event per frame, always the one of `Report`. */
    method XdpProg(frame: seq<Byte>, room: bool, loaded: bool)
      modifies this
      ensures events == old(events)
                      + match Report(frame, loaded) case Some(e) => if room then [e] else [] case None => []
    {
      if ETH_HLEN > |frame| {
        return;
      }
      var iph := ETH_HLEN;
      if iph + IPV4_HLEN > |frame| {
        return;
      }
      if frame[iph + 9] == IPPROTO_SCTP {
        HandleSctp(frame, iph, room);
      } else {
        HandleOther(frame, iph, room, loaded);
      }
    }
  }

  /** The whole report of any frame, in positions and bytes of it. */
  lemma ReportInFull(frame: seq<Byte>, loaded: bool)
    ensures |frame| < 34 ==> Report(frame, loaded) == None
    ensures |frame| >= 34 && frame[23] != 132 ==>
              Report(frame, loaded) == Some(OtherEvent(frame[26..30], frame[30..34],
                if loaded then frame[14..if |frame| < 1494 then |frame| else 1494] else []))
    ensures |frame| >= 34 && frame[23] == 132 ==>
              var c := 26 + 4 * (frame[14] % 16);
              Report(frame, loaded) ==
                if c + 32 <= |frame| && frame[c] == 0 && frame[c + 12..c + 16] == [0, 0, 0, 60]
                then Some(NgapEvent(frame[26..30], frame[30..34],
                                    frame[c - 12] as int * 256 + frame[c - 11],
                                    frame[c - 10] as int * 256 + frame[c - 9],
                                    frame[c + 2] as int * 256 + frame[c + 3],
                                    frame[c + 16] as int * 256 + frame[c + 17], frame[c + 18]))
                else None
  {
  }

  /** From every well-formed frame the tracer recovers both addresses and ports, the length, and three bytes of NGAP. */
  lemma ReportUndoesBuild(f: NgapFrame, loaded: bool)
    requires WellFormed(f)
    ensures Report(Build(f), loaded)
         == Some(NgapEvent(f.saddr, f.daddr,
                           f.sctpHeader[0] as int * 256 + f.sctpHeader[1],
                           f.sctpHeader[2] as int * 256 + f.sctpHeader[3],
                           f.chunkLength[0] as int * 256 + f.chunkLength[1],
                           f.payload[0] as int * 256 + f.payload[1], f.payload[2]))
  {
    BuiltIpHeader(f);
    BuiltPorts(f);
    BuiltChunk(f);
    ReportInFull(Build(f), loaded);
  }

  lemma BuiltIpHeader(f: NgapFrame)
    requires WellFormed(f)
    ensures var b := Build(f);
            && |b| >= 34 && b[14] % 16 == HeaderWords(f) && b[23] == 132
            && b[26..30] == f.saddr && b[30..34] == f.daddr
  {
    var b, end := Build(f), 14 + 4 * HeaderWords(f);
    BuildLayout(f);
    IpHeaderReads(f);
    SliceOfSlice(b, 14, end, 12, 16);
    SliceOfSlice(b, 14, end, 16, 20);
    assert b[14] == b[14..end][0] && b[23] == b[14..end][9];
  }

  lemma BuiltPorts(f: NgapFrame)
    requires WellFormed(f)
    ensures var b, sctp := Build(f), 14 + 4 * HeaderWords(f);
            && |b| >= sctp + 12 && b[sctp] == f.sctpHeader[0] && b[sctp + 1] == f.sctpHeader[1]
            && b[sctp + 2] == f.sctpHeader[2] && b[sctp + 3] == f.sctpHeader[3]
  {
    var b, sctp := Build(f), 14 + 4 * HeaderWords(f);
    BuildLayout(f);
    var header := b[sctp..sctp + 12];
    assert b[sctp] == header[0] && b[sctp + 1] == header[1] && b[sctp + 2] == header[2] && b[sctp + 3] == header[3];
  }

  lemma BuiltChunk(f: NgapFrame)
    requires WellFormed(f)
    ensures var b, c := Build(f), 26 + 4 * HeaderWords(f);
            && |b| >= c + 32 && b[c] == 0 && b[c + 2] == f.chunkLength[0] && b[c + 3] == f.chunkLength[1]
            && b[c + 12..c + 16] == [0, 0, 0, 60]
            && b[c + 16] == f.payload[0] && b[c + 17] == f.payload[1] && b[c + 18] == f.payload[2]
  {
    var b, c := Build(f), 26 + 4 * HeaderWords(f);
    BuildLayout(f);
    ChunkReads(f);
    assert b[c..|b|] == Chunk(f);
    SliceOfSlice(b, c, |b|, 12, 16);
    var chunk := b[c..|b|];
    assert b[c] == chunk[0] && b[c + 2] == chunk[2] && b[c + 3] == chunk[3];
    assert b[c + 16] == chunk[16] && b[c + 17] == chunk[17] && b[c + 18] == chunk[18];
  }

  lemma IpHeaderReads(f: NgapFrame)
    requires WellFormed(f)
    ensures var h := IpHeader(f);
            h[0] % 16 == HeaderWords(f) && h[9] == 132 && h[12..16] == f.saddr && h[16..20] == f.daddr
  {
  }

  lemma ChunkReads(f: NgapFrame)
    requires WellFormed(f)
    ensures var c := Chunk(f);
            && c[0] == 0 && c[2] == f.chunkLength[0] && c[3] == f.chunkLength[1] && c[12..16] == [0, 0, 0, 60]
            && c[16] == f.payload[0] && c[17] == f.payload[1] && c[18] == f.payload[2]
  {
  }

  /** The tracer reports an NGAP procedure code for the frame. */
  ghost predicate Reports(frame: seq<Byte>, h: NgapHeader) {
    var r := Report(frame, true);
    r.Some? && r.value.NgapEvent? && r.value.saddr == h.saddr && r.value.code == h.code
  }

  /**
   * The two parsers agree on every byte string: the enforcer reaches a procedure
   * code exactly when the tracer reports it and the Ethernet type is IPv4, which
   * only the enforcer checks.
   */
  lemma ParsersAgree(frame: seq<Byte>, h: NgapHeader)
    ensures EnforcerParse(frame) == Some(h) <==> Reports(frame, h) && frame[12..14] == [8, 0]
  {
    if EnforcerParse(frame).Some? {
      PpidBytes(frame[ChunkAt(frame) + 12..ChunkAt(frame) + 16]);
    }
  }

  /** The tracer never looks at the Ethernet type: no value of it changes the report. */
  lemma TracerIgnoresEtherType(frame: seq<Byte>, hi: Byte, lo: Byte, loaded: bool)
    requires |frame| >= ETH_HLEN
    ensures Report(frame[12 := hi][13 := lo], loaded) == Report(frame, loaded)
  {
    var other := frame[12 := hi][13 := lo];
    assert other[ETH_HLEN..|other|] == frame[ETH_HLEN..|frame|];
    forall i, j | ETH_HLEN <= i <= j <= |frame|
      ensures other[i..j] == frame[i..j]
    {
      SliceOfSlice(other, ETH_HLEN, |other|, i - ETH_HLEN, j - ETH_HLEN);
      SliceOfSlice(frame, ETH_HLEN, |frame|, i - ETH_HLEN, j - ETH_HLEN);
    }
  }

  /** So the parsers differ on every NGAP frame under another Ethernet type: it is reported, not enforced. */
  lemma OtherEtherTypeIsReportedOnly(f: NgapFrame, hi: Byte, lo: Byte)
    requires WellFormed(f) && [hi, lo] != [8, 0]
    ensures var frame := Build(f)[12 := hi][13 := lo];
            Reports(frame, HeaderOf(f)) && EnforcerParse(frame).None?
  {
    var b := Build(f);
    BuildLayout(f);
    ParseUndoesBuild(f);
    ParsersAgree(b, HeaderOf(f));
    TracerIgnoresEtherType(b, hi, lo, true);
    OtherTypeIsRefused(b[12 := hi][13 := lo]);
  }

  lemma OtherTypeIsRefused(frame: seq<Byte>)
    requires |frame| >= 14 && [frame[12], frame[13]] != [8, 0]
    ensures EnforcerParse(frame).None?
  {
    if EnforcerParse(frame).Some? {
      ParsedExactly(frame, EnforcerParse(frame).value);
    }
  }
}
