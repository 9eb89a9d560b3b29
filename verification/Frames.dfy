/**
 * Ethernet / IPv4 / SCTP / NGAP frames: what the enforcer reads from raw bytes,
 * and the frames those bytes are built from.
 */
module Frames {
  import opened Options
  import opened Sequences

  type Byte = b: int | 0 <= b < 256

  const ETH_P_IP := 0x0800
  const IPPROTO_SCTP := 132
  const SCTP_PPID_NGAP := 60
  const SCTP_DATA := 0
  const ETH_HLEN := 14
  const IPV4_HLEN := 20
  const SCTP_HLEN := 12
  const CHUNK_HLEN := 16
  const NGAP_MIN := 16

  /** Big-endian 16-bit value. */
  function Be16(hi: Byte, lo: Byte): (n: nat)
    ensures n < 0x1_0000
  {
    256 * hi + lo
  }

  /** Big-endian 32-bit value. */
  function Be32(b: seq<Byte>): nat
    requires |b| == 4
  {
    0x1_0000 * Be16(b[0], b[1]) + Be16(b[2], b[3])
  }

  /** What the enforcer takes from a frame: the source address and the first two NGAP bytes. */
  datatype NgapHeader = NgapHeader(saddr: seq<Byte>, code: nat)

  /**
   * The parser of the enforcer.  The source compares pointers with `data_end`;
   * here every pointer is an offset, and every index is proved to be in range.
   */
  function EnforcerParse(frame: seq<Byte>): Option<NgapHeader> {
    if ETH_HLEN > |frame| then None
    else if Be16(frame[12], frame[13]) != ETH_P_IP then None
    else
      var iph := ETH_HLEN;
      if iph + IPV4_HLEN > |frame| then None
      else if frame[iph + 9] != IPPROTO_SCTP then None
      else
        var sctp := iph + frame[iph] % 16 * 4;
        if sctp + SCTP_HLEN > |frame| then None
        else
          var chunk := sctp + SCTP_HLEN;
          if chunk + CHUNK_HLEN > |frame| then None
          else if frame[chunk] != SCTP_DATA then None
          else if Be32(frame[chunk + 12..chunk + 16]) != SCTP_PPID_NGAP then None
          else
            var ngap := chunk + CHUNK_HLEN;
            if ngap + NGAP_MIN > |frame| then None
            else Some(NgapHeader(frame[iph + 12..iph + 16], Be16(frame[ngap], frame[ngap + 1])))
  }

  // ----- frames by their parts -----

  /** The parts of a frame that carries NGAP; fields the parsers do not read are kept as raw bytes. */
  datatype NgapFrame = NgapFrame(
    macs: seq<Byte>,
    version: nat,
    ipService: seq<Byte>,
    ipChecksum: seq<Byte>,
    saddr: seq<Byte>,
    daddr: seq<Byte>,
    options: seq<Byte>,
    sctpHeader: seq<Byte>,
    chunkFlags: Byte,
    chunkLength: seq<Byte>,
    chunkIds: seq<Byte>,
    payload: seq<Byte>)

  predicate WellFormed(f: NgapFrame) {
    && |f.macs| == 12 && f.version < 16 && |f.ipService| == 8 && |f.ipChecksum| == 2
    && |f.saddr| == 4 && |f.daddr| == 4 && |f.options| % 4 == 0 && |f.options| <= 40
    && |f.sctpHeader| == 12 && |f.chunkLength| == 2 && |f.chunkIds| == 8
    && |f.payload| >= 16
  }

  /** Number of 32-bit words of the IPv4 header. */
  function HeaderWords(f: NgapFrame): nat {
    5 + |f.options| / 4
  }

  function IpHeader(f: NgapFrame): (h: seq<Byte>)
    requires WellFormed(f)
    ensures |h| == 4 * HeaderWords(f)
  {
    [16 * f.version + HeaderWords(f)] + f.ipService + [132] + f.ipChecksum + f.saddr + f.daddr + f.options
  }

  function Chunk(f: NgapFrame): (c: seq<Byte>)
    requires WellFormed(f)
    ensures |c| == CHUNK_HLEN + |f.payload|
  {
    [0, f.chunkFlags] + f.chunkLength + f.chunkIds + [0, 0, 0, 60] + f.payload
  }

  /** The bytes on the wire. */
  function Build(f: NgapFrame): seq<Byte>
    requires WellFormed(f)
  {
    f.macs + [0x08, 0x00] + IpHeader(f) + f.sctpHeader + Chunk(f)
  }

  function HeaderOf(f: NgapFrame): NgapHeader
    requires WellFormed(f)
  {
    NgapHeader(f.saddr, f.payload[0] as int * 256 + f.payload[1])
  }

  lemma BuildLayout(f: NgapFrame)
    requires WellFormed(f)
    ensures var b, ip, sctp := Build(f), ETH_HLEN, ETH_HLEN + 4 * HeaderWords(f);
            var chunk := sctp + SCTP_HLEN;
            && |b| == chunk + CHUNK_HLEN + |f.payload|
            && b[12] == 0x08 && b[13] == 0x00
            && b[ip..sctp] == IpHeader(f) && b[sctp..chunk] == f.sctpHeader && b[chunk..] == Chunk(f)
  {
  }

  lemma IpHeaderFields(f: NgapFrame)
    requires WellFormed(f)
    ensures var h := IpHeader(f); h[0] % 16 == HeaderWords(f) && h[9] == IPPROTO_SCTP && h[12..16] == f.saddr
  {
  }

  lemma ChunkFields(f: NgapFrame)
    requires WellFormed(f)
    ensures var c := Chunk(f);
            && c[0] == SCTP_DATA && c[12..16] == [0, 0, 0, SCTP_PPID_NGAP]
            && c[16] == f.payload[0] && c[17] == f.payload[1]
  {
  }

  /** What the parser needs to know of a frame. */
  lemma ParseByParts(frame: seq<Byte>, ip: seq<Byte>, chunk: seq<Byte>)
    requires |frame| > ETH_HLEN && Be16(frame[12], frame[13]) == ETH_P_IP
    requires |ip| >= IPV4_HLEN && |ip| == ip[0] % 16 * 4 && ip[9] == IPPROTO_SCTP
    requires |chunk| >= CHUNK_HLEN + NGAP_MIN && chunk[0] == SCTP_DATA && Be32(chunk[12..16]) == SCTP_PPID_NGAP
    requires |frame| == ETH_HLEN + |ip| + SCTP_HLEN + |chunk|
    requires frame[ETH_HLEN..ETH_HLEN + |ip|] == ip && frame[ETH_HLEN + |ip| + SCTP_HLEN..] == chunk
    ensures EnforcerParse(frame) == Some(NgapHeader(ip[12..16], Be16(chunk[16], chunk[17])))
  {
    var at := ETH_HLEN + |ip| + SCTP_HLEN;
    SliceOfSlice(frame, ETH_HLEN, ETH_HLEN + |ip|, 12, 16);
    SliceOfSlice(frame, at, |frame|, 12, 16);
    assert frame[at..|frame|] == chunk;
    assert frame[ETH_HLEN] == ip[0] && frame[ETH_HLEN + 9] == ip[9];
    assert frame[at] == chunk[0] && frame[at + 16] == chunk[16] && frame[at + 17] == chunk[17];
  }

  /** The enforcer recovers the source address and the first two payload bytes of every well-formed frame. */
  lemma ParseUndoesBuild(f: NgapFrame)
    requires WellFormed(f)
    ensures EnforcerParse(Build(f)) == Some(HeaderOf(f))
  {
    BuildLayout(f);
    IpHeaderFields(f);
    ChunkFields(f);
    ParseByParts(Build(f), IpHeader(f), Chunk(f));
  }

  /** The frame holds an IPv4 header of this many words, and then an SCTP header and an NGAP chunk. */
  predicate Carries(frame: seq<Byte>, words: nat) {
    var sctp, chunk := ETH_HLEN + 4 * words, ETH_HLEN + 4 * words + SCTP_HLEN;
    && 5 <= words < 16 && chunk + CHUNK_HLEN + NGAP_MIN <= |frame|
    && frame[12..14] == [0x08, 0x00] && frame[ETH_HLEN] % 16 == words && frame[ETH_HLEN + 9] == IPPROTO_SCTP
    && frame[chunk] == SCTP_DATA && frame[chunk + 12..chunk + 16] == [0, 0, 0, SCTP_PPID_NGAP]
  }

  /** The parts of a frame, read at the offsets the header length gives. */
  function Dissect(frame: seq<Byte>, words: nat): (f: NgapFrame)
    requires Carries(frame, words)
    ensures WellFormed(f)
  {
    var sctp, chunk := ETH_HLEN + 4 * words, ETH_HLEN + 4 * words + SCTP_HLEN;
    NgapFrame(frame[..12], frame[ETH_HLEN] / 16, frame[15..23], frame[24..26], frame[26..30], frame[30..34],
              frame[34..sctp], frame[sctp..chunk], frame[chunk + 1], frame[chunk + 2..chunk + 4],
              frame[chunk + 4..chunk + 12], frame[chunk + CHUNK_HLEN..])
  }

  lemma PpidBytes(b: seq<Byte>)
    requires |b| == 4 && Be32(b) == SCTP_PPID_NGAP
    ensures b == [0, 0, 0, SCTP_PPID_NGAP]
  {
  }

  lemma ParsedCarries(frame: seq<Byte>)
    requires EnforcerParse(frame).Some? && frame[ETH_HLEN] % 16 >= 5
    ensures Carries(frame, frame[ETH_HLEN] % 16)
  {
    var chunk := ETH_HLEN + frame[ETH_HLEN] % 16 * 4 + SCTP_HLEN;
    PpidBytes(frame[chunk + 12..chunk + 16]);
  }

  lemma IpHeaderIsSlice(frame: seq<Byte>, words: nat)
    requires Carries(frame, words)
    ensures IpHeader(Dissect(frame, words)) == frame[ETH_HLEN..ETH_HLEN + 4 * words]
  {
    IpHeaderPieces(frame, ETH_HLEN + 4 * words);
    ByteHalves(frame[ETH_HLEN]);
    assert HeaderWords(Dissect(frame, words)) == words;
  }

  lemma ByteHalves(b: Byte)
    ensures 16 * (b / 16) + b % 16 == b
  {
  }

  lemma IpHeaderPieces(frame: seq<Byte>, end: nat)
    requires 34 <= end <= |frame|
    ensures frame[14..end] == [frame[14]] + frame[15..23] + [frame[23]] + frame[24..26] + frame[26..30]
            + frame[30..34] + frame[34..end]
  {
  }

  lemma ChunkIsSlice(frame: seq<Byte>, words: nat)
    requires Carries(frame, words)
    ensures Chunk(Dissect(frame, words)) == frame[ETH_HLEN + 4 * words + SCTP_HLEN..]
  {
    ChunkPieces(frame, ETH_HLEN + 4 * words + SCTP_HLEN);
  }

  lemma ChunkPieces(frame: seq<Byte>, c: nat)
    requires c + CHUNK_HLEN <= |frame|
    ensures frame[c..] == [frame[c], frame[c + 1]] + frame[c + 2..c + 4] + frame[c + 4..c + 12]
            + frame[c + 12..c + 16] + frame[c + 16..]
  {
  }

  /** Every frame that carries NGAP is rebuilt from its parts, byte by byte. */
  lemma BuildUndoesDissect(frame: seq<Byte>, words: nat)
    requires Carries(frame, words)
    ensures Build(Dissect(frame, words)) == frame
  {
    IpHeaderIsSlice(frame, words);
    ChunkIsSlice(frame, words);
    FramePieces(frame, ETH_HLEN + 4 * words, ETH_HLEN + 4 * words + SCTP_HLEN);
  }

  lemma FramePieces(frame: seq<Byte>, sctp: nat, chunk: nat)
    requires 14 <= sctp <= chunk <= |frame|
    ensures frame == frame[..12] + frame[12..14] + frame[14..sctp] + frame[sctp..chunk] + frame[chunk..]
  {
  }

  /**
   * On every byte string, whatever its header length says: what the parser accepts, in
   * positions and bytes of the frame.
   */
  lemma ParsedExactly(frame: seq<Byte>, h: NgapHeader)
    ensures EnforcerParse(frame) == Some(h)
       <==> && |frame| >= 34 && frame[12] == 8 && frame[13] == 0 && frame[23] == 132
            && var c := 26 + 4 * (frame[14] % 16);
            && c + 32 <= |frame| && frame[c] == 0 && frame[c + 12..c + 16] == [0, 0, 0, 60]
            && h == NgapHeader(frame[26..30], frame[c + 16] as int * 256 + frame[c + 17])
  {
    if EnforcerParse(frame).Some? {
      PpidBytes(frame[26 + 4 * (frame[14] % 16) + 12..26 + 4 * (frame[14] % 16) + 16]);
    }
  }

  /**
   * With a header length of at least five words, the parser accepts exactly the
   * bytes that are built from the parts of an NGAP frame.
   */
  lemma ParseAcceptsExactlyBuiltFrames(frame: seq<Byte>, h: NgapHeader)
    requires |frame| > ETH_HLEN && frame[ETH_HLEN] % 16 >= 5
    ensures EnforcerParse(frame) == Some(h) <==> exists f :: WellFormed(f) && Build(f) == frame && HeaderOf(f) == h
  {
    if EnforcerParse(frame) == Some(h) {
      var words := frame[ETH_HLEN] % 16;
      ParsedCarries(frame);
      BuildUndoesDissect(frame, words);
      ParseUndoesBuild(Dissect(frame, words));
    }
    if f :| WellFormed(f) && Build(f) == frame && HeaderOf(f) == h {
      ParseUndoesBuild(f);
    }
  }
}
