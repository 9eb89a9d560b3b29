/**
 * What a peer makes of the rewritten buffer: the header list of the message whose HEADERS
 * frame was extended, with the frames that continue it (section 6.10 of RFC 7540).
 */
module Http2Delivery {
  import opened Options
  import opened Numbers
  import opened Sequences
  import opened Frames
  import opened Hpack
  import opened HpackFragments
  import opened Http2Rewrite

  const TYPE_CONTINUATION := 0x09

  // ----- what a peer reads from frames -----

  predicate Has(flags: Byte, flag: nat)
    requires flag > 0
  {
    flags / flag % 2 == 1
  }

  function PadLength(f: Frame): nat {
    if Has(f.flags, FLAG_PADDED) && f.payload != [] then f.payload[0] else 0
  }

  /** Bytes of a HEADERS payload before the header block: pad length, then priority. */
  function BlockOffset(f: Frame): nat {
    (if Has(f.flags, FLAG_PADDED) then 1 else 0) + (if Has(f.flags, FLAG_PRIORITY) then 5 else 0)
  }

  predicate WellPadded(f: Frame) {
    BlockOffset(f) + PadLength(f) <= |f.payload|
  }

  /** What section 6.2 of RFC 7540 leaves of a HEADERS payload for header compression. */
  function HeaderBlock(f: Frame): seq<Byte>
    requires WellPadded(f)
  {
    f.payload[BlockOffset(f)..|f.payload| - PadLength(f)]
  }

  function Padding(f: Frame): seq<Byte>
    requires WellPadded(f)
  {
    f.payload[|f.payload| - PadLength(f)..]
  }

  predicate SameStream(a: seq<Byte>, b: seq<Byte>) {
    |a| == 4 && |b| == 4 && StreamId(a) == StreamId(b)
  }

  /** The fragments of the CONTINUATION frames of a stream, up to the one with END_HEADERS. */
  function Continued(frames: seq<Frame>, stream: seq<Byte>): Option<seq<Byte>> {
    if frames == [] || frames[0].kind != TYPE_CONTINUATION || !SameStream(frames[0].stream, stream) then None
    else if Has(frames[0].flags, FLAG_END_HEADERS) then Some(frames[0].payload)
    else
      match Continued(frames[1..], stream)
      case None => None
      case Some(more) => Some(frames[0].payload + more)
  }

  /** The header block that starts with the first frame. */
  function BlockOf(frames: seq<Frame>): Option<seq<Byte>> {
    if frames == [] || frames[0].kind != TYPE_HEADERS || !WellPadded(frames[0]) then None
    else if Has(frames[0].flags, FLAG_END_HEADERS) then Some(HeaderBlock(frames[0]))
    else
      match Continued(frames[1..], frames[0].stream)
      case None => None
      case Some(more) => Some(HeaderBlock(frames[0]) + more)
  }

  /** The first header list of a buffer. */
  function Received(c: Codec, t: Table, buf: seq<Byte>): Option<Decoded> {
    match BlockOf(ParseFrames(buf).0)
    case None => None
    case Some(b) => Decode(c, b, t)
  }

  /**
   * The header block is what lies between: behind the pad length (flag 8) and the five bytes of a
   * priority (flag 32), in front of the padding.
   */
  lemma HeaderBlockIsMiddle(prio: seq<Byte>, b: seq<Byte>, padding: seq<Byte>, stream: seq<Byte>, endHeaders: bool)
    requires |prio| == 5 && |padding| < 256
    ensures var e := if endHeaders then 4 else 0;
            && IsBlock(Frame(1, e, stream, b), b, [])
            && IsBlock(Frame(1, e + 8, stream, [|padding|] + b + padding), b, padding)
            && IsBlock(Frame(1, e + 32, stream, prio + b), b, [])
            && IsBlock(Frame(1, e + 40, stream, [|padding|] + (prio + b + padding)), b, padding)
  {
    var e, p: seq<Byte> := if endHeaders then 4 else 0, [|padding|];
    BlockBetween(Frame(1, e, stream, b), [], b, []);
    BlockBetween(Frame(1, e + 8, stream, p + b + padding), p, b, padding);
    BlockBetween(Frame(1, e + 32, stream, prio + b), prio, b, []);
    Associate(p, prio + b, padding);
    Associate(p, prio, b);
    BlockBetween(Frame(1, e + 40, stream, p + (prio + b + padding)), p + prio, b, padding);
  }

  lemma BlockBetween(f: Frame, front: seq<Byte>, b: seq<Byte>, padding: seq<Byte>)
    requires f.payload == front + b + padding && BlockOffset(f) == |front| && PadLength(f) == |padding|
    ensures IsBlock(f, b, padding)
  {
    assert (front + b + padding)[|front|..|front| + |b|] == b;
    assert (front + b + padding)[|front| + |b|..] == padding;
  }

  predicate IsBlock(f: Frame, b: seq<Byte>, padding: seq<Byte>) {
    WellPadded(f) && HeaderBlock(f) == b && Padding(f) == padding
  }

  /**
   * Fragments in CONTINUATION frames (type 9) of the same stream are joined, up to the one with
   * END_HEADERS (flag 4).
   */
  lemma BlockIsJoined(stream: seq<Byte>, a: seq<Byte>, b: seq<Byte>, z: seq<Byte>, more: seq<Frame>)
    requires |stream| == 4
    ensures BlockOf([Frame(1, 4, stream, a)] + more) == Some(a)
    ensures BlockOf([Frame(1, 0, stream, a), Frame(9, 0, stream, b), Frame(9, 4, stream, z)] + more)
         == Some(a + (b + z))
  {
    var first, next, last := Frame(1, 0, stream, a), Frame(9, 0, stream, b), Frame(9, 4, stream, z);
    var all := [first, next, last] + more;
    assert all[1..] == [next, last] + more && all[1..][1..] == [last] + more;
    assert Continued([last] + more, stream) == Some(z);
    assert Continued([next, last] + more, stream) == Some(b + z);
    assert HeaderBlock(first) == a;
    assert HeaderBlock(Frame(1, 4, stream, a)) == a;
  }

  // ----- the block after the rewriting -----

  /**
   * What the insertion adds to the block: the pad length still
   * cuts as many bytes off, so the padding comes in first.
   */
  function Spill(f: Frame, x: seq<Byte>): (s: seq<Byte>)
    requires WellPadded(f)
    ensures |s| == |x|
  {
    (Padding(f) + x)[..|x|]
  }

  lemma ExtendedBlock(f: Frame, x: seq<Byte>)
    requires WellPadded(f)
    ensures var g := Extended(f, x);
            WellPadded(g) && HeaderBlock(g) == HeaderBlock(f) + Spill(f, x)
  {
    var g := Extended(f, x);
    assert PadLength(g) == PadLength(f) && BlockOffset(g) == BlockOffset(f);
    ShiftedSlice(f.payload, BlockOffset(f), |f.payload| - PadLength(f), x);
  }

  lemma ShiftedSlice(p: seq<Byte>, i: nat, j: nat, x: seq<Byte>)
    requires i <= j <= |p|
    ensures (p + x)[i..j + |x|] == p[i..j] + (p[j..] + x)[..|x|]
  {
    forall k | 0 <= k < j - i + |x|
      ensures (p + x)[i..j + |x|][k] == (p[i..j] + (p[j..] + x)[..|x|])[k]
    {
    }
  }

  /** The blocks of a buffer before and after. */
  lemma RewrittenBlock(buf: seq<Byte>, x: seq<Byte>)
    requires StartsWithHeaders(buf) && Read24(buf) + |x| < TWO24 && WellPadded(FirstFrame(buf))
    ensures var f, others := FirstFrame(buf), ParseFrames(buf).0[1..];
            var was, now := BlockOf(ParseFrames(buf).0), BlockOf(ParseFrames(Rewritten(buf, x)).0);
            if Has(f.flags, FLAG_END_HEADERS) then
              was == Some(HeaderBlock(f)) && now == Some(HeaderBlock(f) + Spill(f, x))
            else
              match Continued(others, f.stream)
              case None => was == None && now == None
              case Some(more) =>
                was == Some(HeaderBlock(f) + more) && now == Some(HeaderBlock(f) + (Spill(f, x) + more))
  {
    var f, others := FirstFrame(buf), ParseFrames(buf).0[1..];
    ParseFramesSteps(buf);
    FramingKeptExactly(buf, x);
    ExtendedBlock(f, x);
    var now := ParseFrames(Rewritten(buf, x)).0;
    assert now[0] == Extended(f, x) && now[1..] == others;
    if Continued(others, f.stream).Some? {
      Associate(HeaderBlock(f), Spill(f, x), Continued(others, f.stream).value);
    }
  }

  // ----- the whole block in one frame -----

  /** The peer decodes the old headers, then `h`, and ends with the same table. */
  predicate Appended(d: Decoded, h: Header, r: Option<Decoded>) {
    r == Some(Decoded(d.headers + [h], d.table))
  }

  predicate ZeroPadded(f: Frame)
    requires WellPadded(f)
  {
    forall i :: 0 <= i < |Padding(f)| ==> Padding(f)[i] == 0
  }

  /** The spill alone decides. */
  lemma SpillDecides(c: Codec, b: seq<Byte>, s: seq<Byte>, h: Header, t: Table, d: Decoded)
    requires Decode(c, b, t) == Some(d)
    ensures Appended(d, h, Decode(c, b + s, t))
       <==> DecodeBlock(c, s, d.table, d.headers == []) == Some(Decoded([h], d.table))
  {
    DecodeContinues(c, b, s, t, true);
    var z := DecodeBlock(c, s, d.table, d.headers == []);
    if z.Some? {
      assert d.headers + z.value.headers == d.headers + [h] ==> z.value.headers == [h] by {
        assert (d.headers + z.value.headers)[|d.headers|..] == z.value.headers;
        assert (d.headers + [h])[|d.headers|..] == [h];
      }
    }
  }

  lemma UnpaddedSpill(f: Frame, x: seq<Byte>)
    requires WellPadded(f) && PadLength(f) == 0
    ensures Spill(f, x) == x
  {
    assert Padding(f) == [];
  }

  /** Padding that holds the literal carries it, though the insertion itself is cut off. */
  lemma PaddingCarries(c: Codec, f: Frame, h: Header, t: Table, start: bool)
    requires |h.name| < 127 && |h.value| < 127 && WellPadded(f) && PlainLiteral(h) <= Padding(f)
    ensures DecodeBlock(c, Spill(f, PlainLiteral(h)), t, start) == Some(Decoded([h], t))
  {
    var x := PlainLiteral(h);
    assert Spill(f, x) == x && x + [] == x && [h] + [] == [h];
    LeadingLiteralDecodes(c, h, [], t, start);
  }

  /** Without padding the spill is the literal; with zero padding it spells an empty name. */
  lemma SpillOfZeros(c: Codec, f: Frame, h: Header, t: Table, start: bool)
    requires 0 < |h.name| < 127 && |h.value| < 127 && WellPadded(f) && ZeroPadded(f)
    ensures DecodeBlock(c, Spill(f, PlainLiteral(h)), t, start) == Some(Decoded([h], t)) <==> PadLength(f) == 0
  {
    var x := PlainLiteral(h);
    if PadLength(f) == 0 {
      UnpaddedSpill(f, x);
      LeadingLiteralDecodes(c, h, [], t, start);
      assert x + [] == x && [h] + [] == [h];
    } else {
      var s := Spill(f, x);
      assert |Padding(f)| == PadLength(f);
      assert s[0] == Padding(f)[0] == 0;
      assert s[1] == if PadLength(f) > 1 then Padding(f)[1] else x[0];
      EmptyNameDecoded(c, s, t, start);
    }
  }

  /**
   * When the first frame holds a whole block: the frames stay as they are but for the first, and
   * the peer gets the old headers and the signature exactly when the spill decodes to the
   * signature; with zero padding, as section 6.1 wants it, exactly when there is no padding.
   */
  lemma SignatureDelivered(c: Codec, buf: seq<Byte>, t: Table, d: Decoded)
    requires StartsWithHeaders(buf) && Read24(buf) + 31 < TWO24
    requires WellPadded(FirstFrame(buf)) && Has(FirstFrame(buf).flags, FLAG_END_HEADERS)
    requires Received(c, t, buf) == Some(d)
    ensures FramingKept(buf, Inserted())
    ensures var f := FirstFrame(buf);
            && (Appended(d, Signature(), Received(c, t, Rewritten(buf, Inserted())))
                <==> Some(Decoded([Signature()], d.table))
                     == DecodeBlock(c, Spill(f, Inserted()), d.table, d.headers == []))
            && (ZeroPadded(f) ==>
                (Appended(d, Signature(), Received(c, t, Rewritten(buf, Inserted()))) <==> PadLength(f) == 0))
  {
    DeliveredInOneFrame(c, buf, t, Signature(), d);
    FramingKeptExactly(buf, Inserted());
  }

  /**
   * The program and its peer together: of a buffer with a whole header block and no padding the peer
   * decodes the headers that were in it, and behind them `x-nf-signature: test-signature`, byte by byte.
   */
  method SslWriteDelivers(data: array<Byte>, num: nat, ghost c: Codec, ghost t: Table, ghost d: Decoded)
    returns (sent: array<Byte>, sentNum: int)
    requires num <= data.Length && num + 31 <= 0x7fff_ffff
    requires StartsWithHeaders(data[..num]) && Read24(data[..num]) + 31 < 0x100_0000
    requires var f := FirstFrame(data[..num]); WellPadded(f) && Has(f.flags, 4) && PadLength(f) == 0
    requires Received(c, t, data[..num]) == Some(d)
    ensures 0 <= sentNum <= sent.Length && Received(c, t, sent[..sentNum])
         == Some(Decoded(d.headers + [Header([120, 45, 110, 102, 45, 115, 105, 103, 110, 97, 116, 117, 114, 101],
                                             [116, 101, 115, 116, 45, 115, 105, 103, 110, 97, 116, 117, 114, 101])],
                         d.table))
  {
    SignatureDelivered(c, data[..num], t, d);
    sent, sentNum := SslWrite(data, num, true);
    assert sent[..sentNum] == Rewritten(data[..num], Inserted());
  }

  lemma DeliveredInOneFrame(c: Codec, buf: seq<Byte>, t: Table, h: Header, d: Decoded)
    requires 0 < |h.name| < 127 && |h.value| < 127
    requires StartsWithHeaders(buf) && Read24(buf) + |PlainLiteral(h)| < TWO24
    requires WellPadded(FirstFrame(buf)) && Has(FirstFrame(buf).flags, FLAG_END_HEADERS)
    requires Received(c, t, buf) == Some(d)
    ensures var f, x := FirstFrame(buf), PlainLiteral(h);
            && (Appended(d, h, Received(c, t, Rewritten(buf, x)))
                <==> DecodeBlock(c, Spill(f, x), d.table, d.headers == []) == Some(Decoded([h], d.table)))
            && (ZeroPadded(f) ==> (Appended(d, h, Received(c, t, Rewritten(buf, x))) <==> PadLength(f) == 0))
  {
    var f, x := FirstFrame(buf), PlainLiteral(h);
    RewrittenBlock(buf, x);
    SpillDecides(c, HeaderBlock(f), Spill(f, x), h, t, d);
    if ZeroPadded(f) {
      SpillOfZeros(c, f, h, d.table, d.headers == []);
    }
  }

  // ----- a block continued in other frames -----

  /** The buffer starts with a HEADERS frame on a stream that is not the end of its block. */
  predicate StartsContinued(buf: seq<Byte>) {
    StartsWithHeaders(buf) && !Has(FirstFrame(buf).flags, FLAG_END_HEADERS) && WellPadded(FirstFrame(buf))
  }

  lemma ContinuedBlocks(c: Codec, buf: seq<Byte>, x: seq<Byte>, t: Table) returns (more: seq<Byte>)
    requires StartsContinued(buf) && Read24(buf) + |x| < TWO24 && Received(c, t, buf).Some?
    ensures var f := FirstFrame(buf);
            && Continued(ParseFrames(buf).0[1..], f.stream) == Some(more)
            && Received(c, t, buf) == Decode(c, HeaderBlock(f) + more, t)
            && Received(c, t, Rewritten(buf, x)) == Decode(c, HeaderBlock(f) + (Spill(f, x) + more), t)
  {
    RewrittenBlock(buf, x);
    more := Continued(ParseFrames(buf).0[1..], FirstFrame(buf).stream).value;
  }

  /** With zero padding the spill is zeros and then the literal. */
  lemma SpillIsZeroSpill(f: Frame, h: Header)
    requires |h.name| < 127 && |h.value| < 127 && WellPadded(f) && ZeroPadded(f)
    ensures Spill(f, PlainLiteral(h)) == ZeroSpill(PadLength(f), h)
  {
    assert |Padding(f)| == PadLength(f);
    assert Padding(f) == Repeated(0, PadLength(f));
  }

  /**
   * When the first frame ends where a field ends, the header comes between its headers and
   * those of the frames after it exactly when there is no padding, and the first frame
   * gave a header or the next does not start with a table size update.
   */
  lemma BoundaryDeliveredExactly(c: Codec, buf: seq<Byte>, h: Header, t: Table, a: Decoded, d: Decoded)
    requires 0 < |h.name| < 127 && |h.value| < 127
    requires StartsContinued(buf) && ZeroPadded(FirstFrame(buf)) && Read24(buf) + |PlainLiteral(h)| < TWO24
    requires Decode(c, HeaderBlock(FirstFrame(buf)), t) == Some(a) && Received(c, t, buf) == Some(d)
    ensures Extends(d, h, |a.headers|, Received(c, t, Rewritten(buf, PlainLiteral(h))))
       <==> && PadLength(FirstFrame(buf)) == 0
            && (a.headers != [] || !StartsWithSizeUpdate(Continued(ParseFrames(buf).0[1..],
                                                                   FirstFrame(buf).stream).value))
  {
    var f := FirstFrame(buf);
    var more := ContinuedBlocks(c, buf, PlainLiteral(h), t);
    if PadLength(f) == 0 {
      UnpaddedSpill(f, PlainLiteral(h));
      InsertedExactly(c, HeaderBlock(f), h, more, t, a, d);
    } else {
      SpillIsZeroSpill(f, h);
      ZerosAtBoundary(c, HeaderBlock(f), PadLength(f), h, t, more);
    }
  }

  /** The old headers of the buffer and `h` among them. */
  ghost predicate DeliveredTo(c: Codec, t: Table, buf: seq<Byte>, h: Header)
    requires |h.name| < 127 && |h.value| < 127
    requires StartsWithFrame(buf) && Received(c, t, buf).Some?
  {
    exists k :: Extends(Received(c, t, buf).value, h, k, Received(c, t, Rewritten(buf, PlainLiteral(h))))
  }

  /** The buffer of a first frame and whatever frames the program sends after it. */
  function BufferOf(f: WireFrame, others: seq<WireFrame>): (buf: seq<Byte>)
    ensures StartsWithFrame(buf) && FirstFrame(buf) == f && Read24(buf) == |f.payload|
    ensures ParseFrames(buf).0 == [f] + others
  {
    ParseUndoesPrint([f] + others, []);
    assert ([f] + others)[1..] == others;
    assert PrintedAll([f] + others) + [] == PrintedAll([f] + others);
    FirstFrameReadsBack(f, PrintedAll(others));
    PrintedAll([f] + others)
  }

  /** Whatever frames come after the first one, the header is delivered if they make a block. */
  ghost predicate SafeFrame(c: Codec, t: Table, f: WireFrame, h: Header)
    requires |h.name| < 127 && |h.value| < 127
  {
    forall others :: Received(c, t, BufferOf(f, others)).Some? ==> DeliveredTo(c, t, BufferOf(f, others), h)
  }

  function ContinuationFrame(stream: seq<Byte>, last: bool, payload: seq<Byte>): (f: WireFrame)
    requires |stream| == 4 && |payload| < TWO24
  {
    Frame(9, if last then 4 else 0, stream, payload)
  }

  /** Any bytes as CONTINUATION frames, here of one byte each. */
  function Chunks(stream: seq<Byte>, b: seq<Byte>): seq<WireFrame>
    requires |stream| == 4
  {
    if |b| <= 1 then [ContinuationFrame(stream, true, b)]
    else [ContinuationFrame(stream, false, b[..1])] + Chunks(stream, b[1..])
  }

  lemma {:induction false} ChunksContinue(stream: seq<Byte>, b: seq<Byte>)
    requires |stream| == 4
    ensures Continued(Chunks(stream, b), stream) == Some(b)
  {
    if |b| > 1 {
      ChunksContinue(stream, b[1..]);
      assert Chunks(stream, b)[1..] == Chunks(stream, b[1..]);
      assert b[..1] + b[1..] == b;
    }
  }

  /** A first frame that leaves its block to be continued. */
  predicate Unfinished(f: WireFrame) {
    f.kind == TYPE_HEADERS && StreamId(f.stream) != 0 && !Has(f.flags, FLAG_END_HEADERS) && WellPadded(f)
  }

  /**
   * With any padding: the frame is safe for all frames after it
   * exactly when its fragment is safe for all rests of the block.
   */
  lemma SafeFrameIsSafeFragment(c: Codec, t: Table, f: WireFrame, h: Header)
    requires |h.name| < 127 && |h.value| < 127
    requires Unfinished(f) && |f.payload| + |PlainLiteral(h)| < TWO24
    ensures SafeFrame(c, t, f, h) <==> Safe(c, HeaderBlock(f), Spill(f, PlainLiteral(h)), h, t)
  {
    var b, x := HeaderBlock(f), Spill(f, PlainLiteral(h));
    if Safe(c, b, x, h, t) {
      forall others | Received(c, t, BufferOf(f, others)).Some?
        ensures DeliveredTo(c, t, BufferOf(f, others), h)
      {
        var more := ContinuedBlocks(c, BufferOf(f, others), PlainLiteral(h), t);
        assert Completes(c, b, t, more) && Delivered(c, b, x, h, t, more);
      }
    }
    if SafeFrame(c, t, f, h) {
      forall more | Completes(c, b, t, more)
        ensures Delivered(c, b, x, h, t, more)
      {
        var others := Chunks(f.stream, more);
        ChunksAreReceived(c, t, f, more);
        var same := ContinuedBlocks(c, BufferOf(f, others), PlainLiteral(h), t);
        assert DeliveredTo(c, t, BufferOf(f, others), h);
      }
    }
  }

  lemma ChunksAreReceived(c: Codec, t: Table, f: WireFrame, more: seq<Byte>)
    requires Unfinished(f)
    ensures var buf := BufferOf(f, Chunks(f.stream, more));
            && Continued(ParseFrames(buf).0[1..], f.stream) == Some(more)
            && Received(c, t, buf) == Decode(c, HeaderBlock(f) + more, t)
  {
    var others := Chunks(f.stream, more);
    ChunksContinue(f.stream, more);
    assert ([f] + others)[1..] == others;
  }

  /**
   * Which unfinished HEADERS frames with zero padding, or none, can be extended whatever CONTINUATION
   * frames follow: those without padding whose bytes end where a field ends and give at
   * least one header.
   */
  lemma SafeFrameExactly(c: Codec, t: Table, f: WireFrame, some: seq<Byte>)
    requires Unfinished(f) && ZeroPadded(f) && |f.payload| + 31 < TWO24
    requires Completes(c, HeaderBlock(f), t, some)
    requires Usable(c, ReadFragment(c, HeaderBlock(f), t, true).rest, Signature(), some)
    ensures SafeFrame(c, t, f, Signature())
       <==> PadLength(f) == 0 && Decode(c, HeaderBlock(f), t).Some? && Decode(c, HeaderBlock(f), t).value.headers != []
  {
    SignatureIsDistinctive();
    SafeFrameIsSafeFragment(c, t, f, Signature());
    if PadLength(f) == 0 {
      UnpaddedSpill(f, PlainLiteral(Signature()));
      SafeExactly(c, HeaderBlock(f), Signature(), t, some);
    } else {
      SpillIsZeroSpill(f, Signature());
      ZerosAreUnsafe(c, HeaderBlock(f), PadLength(f), Signature(), t, some);
    }
  }

  lemma SignatureIsDistinctive()
    ensures Distinctive(Signature())
  {
  }

  /** Without padding, and with zero padding, a zero comes first. */
  lemma SpillStartsWithZero(f: Frame, h: Header)
    requires |h.name| < 127 && |h.value| < 127 && WellPadded(f) && ZeroPadded(f)
    ensures var x := Spill(f, PlainLiteral(h));
            x != [] && x[0] == 0
  {
    SpillIsZeroSpill(f, h);
  }

  /**
   * Of a frame cut among the characters of a string the header is lost with all frames after it that
   * make a block of headers without zero bytes, as section 10.3 asks of valid ones.
   */
  lemma CutFrameLosesHeader(c: Codec, t: Table, f: WireFrame, h: Header, others: seq<WireFrame>)
    requires |h.name| < 127 && |h.value| < 127 && !HasZero(h)
    requires Unfinished(f) && ZeroPadded(f) && |f.payload| + |PlainLiteral(h)| < TWO24
    requires var q := PendingString(c, ReadFragment(c, HeaderBlock(f), t, true).rest);
             q.Some? && CutAmongCharacters(q.value)
    requires var r := Received(c, t, BufferOf(f, others));
             r.Some? && forall i :: 0 <= i < |r.value.headers| ==> !HasZero(r.value.headers[i])
    ensures !DeliveredTo(c, t, BufferOf(f, others), h)
  {
    var more := ContinuedBlocks(c, BufferOf(f, others), PlainLiteral(h), t);
    SpillStartsWithZero(f, h);
    CutCharactersLoseHeader(c, HeaderBlock(f), Spill(f, PlainLiteral(h)), h, t, more);
  }

  // ----- buffers for which it fails -----

  function Plain(payload: seq<Byte>): (f: WireFrame)
    requires |payload| < TWO24
    ensures Unfinished(f) && PadLength(f) == 0 && HeaderBlock(f) == payload
  {
    Frame(1, 0, [0, 0, 0, 1], payload)
  }

  /** An empty HEADERS frame and a CONTINUATION frame that opens with a table size update. */
  lemma EmptyFrameIsUnsafe(c: Codec, t: Table)
    ensures var buf := BufferOf(Plain([]), Chunks([0, 0, 0, 1], [32]));
            && StartsWithHeaders(buf) && Received(c, t, buf).Some?
            && Received(c, t, Rewritten(buf, Inserted())) == None
  {
    var buf := BufferOf(Plain([]), Chunks([0, 0, 0, 1], [32]));
    ChunksAreReceived(c, t, Plain([]), [32]);
    assert [] + [32] == [32];
    LateSizeUpdate(c, t);
    var more := ContinuedBlocks(c, buf, Inserted(), t);
    UnpaddedSpill(Plain([]), Inserted());
    InsertedLiteralDecodes(c, [], Signature(), [32], t);
  }

  /** A HEADERS frame cut in the middle of the name `ab`. */
  lemma CutNameIsUnsafe(c: Codec, t: Table)
    ensures var buf := BufferOf(Plain([0, 2, 97]), Chunks([0, 0, 0, 1], [98, 0]));
            && StartsWithHeaders(buf) && Received(c, t, buf) == Some(Decoded([Header([97, 98], [])], t))
            && !DeliveredTo(c, t, buf, Signature())
  {
    var f, others := Plain([0, 2, 97]), Chunks([0, 0, 0, 1], [98, 0]);
    CutNameIsReceived(c, t);
    NameBreaksOff(c, t);
    SignatureIsDistinctive();
    CutFrameLosesHeader(c, t, f, Signature(), others);
  }

  lemma CutNameIsReceived(c: Codec, t: Table)
    ensures Received(c, t, BufferOf(Plain([0, 2, 97]), Chunks([0, 0, 0, 1], [98, 0]))) ==
            Some(Decoded([Header([97, 98], [])], t))
  {
    ChunksAreReceived(c, t, Plain([0, 2, 97]), [98, 0]);
    ShortLiteral();
    LoneLiteralDecodes(c, Header([97, 98], []), t, [0, 2, 97] + [98, 0]);
  }

  lemma ShortLiteral()
    ensures PlainLiteral(Header([97, 98], [])) == [0, 2, 97] + [98, 0]
  {
  }

  lemma LoneLiteralDecodes(c: Codec, h: Header, t: Table, b: seq<Byte>)
    requires |h.name| < 127 && |h.value| < 127 && b == PlainLiteral(h)
    ensures Decode(c, b, t) == Some(Decoded([h], t))
  {
    assert b + [] == b && [h] + [] == [h];
    LeadingLiteralDecodes(c, h, [], t, true);
  }

  lemma NameBreaksOff(c: Codec, t: Table)
    ensures ReadFragment(c, [0, 2, 97], t, true) == Progress([], t, true, [0, 2, 97])
    ensures PendingString(c, [0, 2, 97]) == Some([2, 97]) && CutAmongCharacters([2, 97])
  {
    var b: seq<Byte>, q: seq<Byte> := [0, 2, 97], [2, 97];
    assert b[1..] == q && q[1..] == [97];
    assert DecodeInt(b, 15) == Some(Front(0, q));
    assert DecodeInt(q, 127) == Some(Front(2, [97]));
    assert DecodeString(c, q) == None;
    assert DecodeLiteral(c, b, 15, t) == None;
  }

  /** A frame with END_HEADERS, an empty block and one byte of padding. */
  lemma PaddedFrameIsSpoilt(c: Codec, t: Table)
    ensures var buf := BufferOf(Padded(), []);
            && StartsWithHeaders(buf) && Received(c, t, buf) == Some(Decoded([], t))
            && !Appended(Decoded([], t), Signature(), Received(c, t, Rewritten(buf, Inserted())))
  {
    var buf := BufferOf(Padded(), []);
    assert ParseFrames(buf).0 == [Padded()];
    SignatureDelivered(c, buf, t, Decoded([], t));
  }

  function Padded(): (f: WireFrame)
    ensures Has(f.flags, FLAG_END_HEADERS) && WellPadded(f) && ZeroPadded(f)
    ensures PadLength(f) == 1 && HeaderBlock(f) == []
  {
    Frame(1, 12, [0, 0, 0, 1], [1, 0])
  }
}
