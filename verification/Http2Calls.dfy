/**
 * A connection written in several calls, each of which the interposed `SSL_write` of
 * HTTP/2 looks at by itself.
 */
module Http2Calls {
  import opened Numbers
  import opened Sequences
  import opened Frames
  import opened Http2Rewrite

  /** All that the calls send. */
  function SentAll(calls: seq<Call>, x: seq<Byte>): seq<Byte> {
    if calls == [] then [] else SentBy(calls[0], x) + SentAll(calls[1..], x)
  }

  /** All that the program meant to send. */
  function Text(calls: seq<Call>): seq<Byte> {
    if calls == [] then [] else calls[0].buf + Text(calls[1..])
  }

  // ----- what should arrive -----

  /** A frame arrives as it is, or opens headers and arrives longer by `x`. */
  predicate FrameKept(was: Frame, now: Frame, x: seq<Byte>) {
    || now == was
    || (was.kind == TYPE_HEADERS && |was.stream| == 4 && StreamId(was.stream) != 0 && now == Extended(was, x))
  }

  predicate FramesKept(was: seq<Frame>, now: seq<Frame>, x: seq<Byte>) {
    |now| == |was| && forall i :: 0 <= i < |was| ==> FrameKept(was[i], now[i], x)
  }

  /** All frames arrive, none changed but for headers made longer, and the unfinished frame after them too. */
  predicate Kept(was: (seq<Frame>, seq<Byte>), now: (seq<Frame>, seq<Byte>), x: seq<Byte>) {
    FramesKept(was.0, now.0, x) && now.1 == was.1
  }

  /**
   * Calls that are rewritten start where a frame starts, and the length of that frame can grow.
   * `rest` is what the calls before have left of an unfinished frame.
   */
  predicate Aligned(rest: seq<Byte>, calls: seq<Call>, x: seq<Byte>)
    decreases |calls|
  {
    calls == [] ||
    (FitsHere(rest, calls[0], x) && Aligned(ParseFrames(rest + calls[0].buf).1, calls[1..], x))
  }

  predicate FitsHere(rest: seq<Byte>, call: Call, x: seq<Byte>) {
    Rewrites(call, x) ==> rest == [] && Read24(call.buf) + |x| < TWO24
  }

  /** The frames a call completes, as they should arrive. */
  function Completed(rest: seq<Byte>, call: Call, x: seq<Byte>): seq<Frame> {
    var frames := ParseFrames(rest + call.buf).0;
    if Rewrites(call, x) && frames != [] then [Extended(frames[0], x)] + frames[1..] else frames
  }

  function AllCompleted(rest: seq<Byte>, calls: seq<Call>, x: seq<Byte>): seq<Frame>
    decreases |calls|
  {
    if calls == [] then []
    else Completed(rest, calls[0], x) + AllCompleted(ParseFrames(rest + calls[0].buf).1, calls[1..], x)
  }

  // ----- parsing goes on -----

  lemma NothingBefore(s: seq<Byte>)
    ensures [] + s == s
  {
  }

  lemma FirstFrameStable(a: seq<Byte>, b: seq<Byte>)
    requires StartsWithFrame(a)
    ensures var end := FRAME_HEADER + Read24(a);
            && StartsWithFrame(a + b) && FirstFrame(a + b) == FirstFrame(a)
            && Read24(a + b) == Read24(a) && (a + b)[end..] == a[end..] + b
  {
    var end := FRAME_HEADER + Read24(a);
    assert (a + b)[5..9] == a[5..9] && (a + b)[9..end] == a[9..end];
  }

  /** Parsing goes on with the bytes left over. */
  lemma {:induction false} ParseGoesOn(a: seq<Byte>, b: seq<Byte>)
    ensures var (front, rest) := ParseFrames(a);
            var (more, rest') := ParseFrames(rest + b);
            ParseFrames(a + b) == (front + more, rest')
    decreases |a|
  {
    if !StartsWithFrame(a) {
      assert [] + ParseFrames(a + b).0 == ParseFrames(a + b).0;
    } else {
      var behind := a[FRAME_HEADER + Read24(a)..];
      FirstFrameStable(a, b);
      ParseFramesSteps(a);
      ParseFramesSteps(a + b);
      ParseGoesOn(behind, b);
      var (front, rest) := ParseFrames(behind);
      Associate([FirstFrame(a)], front, ParseFrames(rest + b).0);
    }
  }

  lemma {:induction false} LeftoverIsUnfinished(a: seq<Byte>)
    ensures !StartsWithFrame(ParseFrames(a).1)
    decreases |a|
  {
    if StartsWithFrame(a) {
      LeftoverIsUnfinished(a[FRAME_HEADER + Read24(a)..]);
    }
  }

  // ----- a call that fits -----

  lemma CallIsKept(rest: seq<Byte>, call: Call, x: seq<Byte>)
    requires FitsHere(rest, call, x) && |x| < TWO24
    ensures ParseFrames(rest + SentBy(call, x)) == (Completed(rest, call, x), ParseFrames(rest + call.buf).1)
    ensures FramesKept(ParseFrames(rest + call.buf).0, Completed(rest, call, x), x)
  {
    if Rewrites(call, x) {
      NothingBefore(call.buf);
      NothingBefore(Rewritten(call.buf, x));
      ParseFramesSteps(call.buf);
      FramingKeptExactly(call.buf, x);
      ExtendedIsKept(ParseFrames(call.buf).0, x);
    }
  }

  lemma ExtendedIsKept(frames: seq<Frame>, x: seq<Byte>)
    requires frames != [] && frames[0].kind == TYPE_HEADERS
    requires |frames[0].stream| == 4 && StreamId(frames[0].stream) != 0
    ensures FramesKept(frames, [Extended(frames[0], x)] + frames[1..], x)
  {
    assert FrameKept(frames[0], Extended(frames[0], x), x);
  }

  lemma KeptBehind(a: seq<Frame>, a': seq<Frame>, was: (seq<Frame>, seq<Byte>), now: (seq<Frame>, seq<Byte>),
                   x: seq<Byte>)
    requires FramesKept(a, a', x)
    ensures Kept((a + was.0, was.1), (a' + now.0, now.1), x) <==> Kept(was, now, x)
  {
    if Kept((a + was.0, was.1), (a' + now.0, now.1), x) {
      forall i | 0 <= i < |was.0| ensures FrameKept(was.0[i], now.0[i], x) {
        assert FrameKept((a + was.0)[|a| + i], (a' + now.0)[|a| + i], x);
      }
    }
  }

  // ----- a call that does not fit -----

  /** Two byte strings that differ before or in their first frames. */
  predicate Unlike(w: seq<Byte>, n: seq<Byte>, x: seq<Byte>) {
    w != n && (StartsWithFrame(w) && StartsWithFrame(n) ==> !FrameKept(FirstFrame(w), FirstFrame(n), x))
  }

  lemma KeptSteps(w: seq<Byte>, n: seq<Byte>, x: seq<Byte>)
    requires StartsWithFrame(w) && StartsWithFrame(n)
    requires Kept(ParseFrames(w), ParseFrames(n), x)
    ensures FrameKept(FirstFrame(w), FirstFrame(n), x)
    ensures Kept(ParseFrames(w[FRAME_HEADER + Read24(w)..]), ParseFrames(n[FRAME_HEADER + Read24(n)..]), x)
  {
    ParseFramesSteps(w);
    ParseFramesSteps(n);
    var (was, rest) := ParseFrames(w);
    var (now, rest') := ParseFrames(n);
    FirstOfKept(FirstFrame(w), was[1..], FirstFrame(n), now[1..], x);
  }

  lemma FirstOfKept(f: Frame, was: seq<Frame>, g: Frame, now: seq<Frame>, x: seq<Byte>)
    requires FramesKept([f] + was, [g] + now, x)
    ensures FrameKept(f, g, x) && FramesKept(was, now, x)
  {
    assert ([f] + was)[0] == f && ([g] + now)[0] == g;
    forall i | 0 <= i < |was| ensures FrameKept(was[i], now[i], x) {
      assert ([f] + was)[i + 1] == was[i] && ([g] + now)[i + 1] == now[i];
    }
  }

  lemma UnlikeIsNotKept(w: seq<Byte>, n: seq<Byte>, x: seq<Byte>)
    requires Unlike(w, n, x)
    ensures !Kept(ParseFrames(w), ParseFrames(n), x)
  {
    if StartsWithFrame(w) && StartsWithFrame(n) {
      if Kept(ParseFrames(w), ParseFrames(n), x) {
        KeptSteps(w, n, x);
        assert false;
      }
    } else {
      OneFrameMore(w, n);
    }
  }

  lemma OneFrameMore(w: seq<Byte>, n: seq<Byte>)
    requires w != n && !(StartsWithFrame(w) && StartsWithFrame(n))
    ensures |ParseFrames(w).0| != |ParseFrames(n).0| || ParseFrames(w).1 != ParseFrames(n).1
  {
    if StartsWithFrame(w) {
      ParseFramesSteps(w);
    } else if StartsWithFrame(n) {
      ParseFramesSteps(n);
    }
  }

  lemma UnlikeBehind(w: seq<Byte>, n: seq<Byte>, x: seq<Byte>)
    requires StartsWithFrame(w) && StartsWithFrame(n)
    requires Unlike(w[FRAME_HEADER + Read24(w)..], n[FRAME_HEADER + Read24(n)..], x)
    ensures !Kept(ParseFrames(w), ParseFrames(n), x)
  {
    UnlikeIsNotKept(w[FRAME_HEADER + Read24(w)..], n[FRAME_HEADER + Read24(n)..], x);
    if Kept(ParseFrames(w), ParseFrames(n), x) {
      KeptSteps(w, n, x);
      assert false;
    }
  }

  /** A difference in kind, flags, stream or payload at the same place. */
  lemma DifferenceIsSeen(w: seq<Byte>, n: seq<Byte>, p: nat, x: seq<Byte>)
    requires |x| > 0 && 3 <= p < |w| && p < |n| && w[p] != n[p]
    requires p < 5 || (Read24(w) == Read24(n) && p < FRAME_HEADER + Read24(w))
    ensures Unlike(w, n, x)
  {
    if StartsWithFrame(w) && StartsWithFrame(n) {
      var f, g := FirstFrame(w), FirstFrame(n);
      if p >= 9 {
        assert f.payload[p - 9] == w[p] && g.payload[p - 9] == n[p];
      } else if p >= 5 {
        assert f.stream[p - 5] == w[p] && g.stream[p - 5] == n[p];
      }
    }
  }

  /** Lengths that differ by anything else than the insertion. */
  lemma LengthIsSeen(w: seq<Byte>, n: seq<Byte>, x: seq<Byte>)
    requires |w| >= 3 && |n| >= 3 && Read24(n) != Read24(w) && Read24(n) != Read24(w) + |x|
    ensures Unlike(w, n, x)
  {
  }

  lemma LastDigitChanges(v: nat, d: nat)
    requires d % 256 != 0
    ensures (v + d) % 256 != v % 256
  {
    var q := d / 256;
    assert v + d == v + d % 256 + 256 * q;
  }

  lemma LastByte(p: seq<Byte>)
    requires |p| >= 3
    ensures Read24(p) % 256 == p[2]
  {
    var hi := p[0] as int * 0x100 + p[1] as int;
    assert Read24(p) == 256 * hi + p[2];
  }

  /** The rewriting changes the third byte of the call and keeps the two behind it. */
  lemma ThirdByteChanges(call: seq<Byte>, x: seq<Byte>)
    requires StartsWithFrame(call) && |x| % 256 != 0
    ensures var out := Rewritten(call, x);
            |out| >= 9 && out[2] != call[2] && out[3] == call[3] && out[4] == call[4]
  {
    var out, len := Rewritten(call, x), Read24(call);
    RewrittenParts(call, x);
    assert out[2] == (len + |x|) % 256;
    LastByte(call);
    LastDigitChanges(len, |x|);
  }

  /** A frame of which one or two bytes are missing: the length of the next one is spoilt. */
  lemma NextLengthIsSpoilt(rest: seq<Byte>, c: seq<Byte>, out: seq<Byte>, x: seq<Byte>)
    requires |rest| >= 3 && 1 <= FRAME_HEADER + Read24(rest) - |rest| <= 2
    requires |c| >= 9 && |out| >= 9 && out[2] != c[2] && out[3] == c[3] && out[4] == c[4] && |x| % 256 != 0
    ensures !Kept(ParseFrames(rest + c), ParseFrames(rest + out), x)
  {
    var w, n, m := rest + c, rest + out, FRAME_HEADER + Read24(rest) - |rest|;
    LaterLengthDiffers(c, out, m, x);
    EndsInNext(rest, c, m);
    EndsInNext(rest, out, m);
    UnlikeBehind(w, n, x);
  }

  lemma EndsInNext(rest: seq<Byte>, c: seq<Byte>, m: nat)
    requires |rest| >= 3 && |rest| + m == FRAME_HEADER + Read24(rest) && m <= |c|
    ensures StartsWithFrame(rest + c) && (rest + c)[FRAME_HEADER + Read24(rest + c)..] == c[m..]
  {
    assert Read24(rest + c) == Read24(rest);
  }

  lemma LaterLengthDiffers(c: seq<Byte>, out: seq<Byte>, m: nat, x: seq<Byte>)
    requires 1 <= m <= 2 && |x| % 256 != 0
    requires |c| >= 9 && |out| >= 9 && out[2] != c[2] && out[3] == c[3] && out[4] == c[4]
    ensures Unlike(c[m..], out[m..], x)
  {
    HighPartsDiffer(c[m], c[m + 1], out[m], out[m + 1], c[m + 2], |x|);
    LengthIsSeen(c[m..], out[m..], x);
  }

  lemma HighPartsDiffer(a: Byte, b: Byte, a': Byte, b': Byte, low: Byte, d: nat)
    requires (a' != a || b' != b) && d % 256 != 0
    ensures Read24([a', b', low]) != Read24([a, b, low])
    ensures Read24([a', b', low]) != Read24([a, b, low]) + d
  {
    var more := (a' as int * 256 + b') - (a as int * 256 + b);
    assert Read24([a', b', low]) - Read24([a, b, low]) == 256 * more;
    assert (256 * more) % 256 == 0;
  }

  /** A call that goes on with a frame of which the length is sent and at least three bytes are missing. */
  predicate Misses(sent: seq<Byte>, n: nat) {
    |sent| >= 3 && |sent| + n <= FRAME_HEADER + Read24(sent)
  }

  /**
   * A call that goes on with a frame and happens to look like a HEADERS frame spoils it: the
   * frame keeps its length, but not its bytes.
   */
  lemma ContinuedFrameIsSpoilt(sent: seq<Byte>, c: seq<Byte>, t: seq<Byte>, s: seq<Byte>, x: seq<Byte>)
    requires Misses(sent, 3) && StartsWithHeaders(c) && |x| % 256 != 0
    ensures Unlike(sent + (c + t), sent + (Rewritten(c, x) + s), x)
    ensures var w, n := sent + (c + t), sent + (Rewritten(c, x) + s);
            StartsWithFrame(w) && StartsWithFrame(n) ==>
              && |FirstFrame(n).payload| == |FirstFrame(w).payload|
              && FirstFrame(n) != FirstFrame(w)
  {
    var out, p := Rewritten(c, x), |sent| + 2;
    var w, n := sent + (c + t), sent + (out + s);
    ThirdByteChanges(c, x);
    assert w[p] == c[2] && n[p] == out[2];
    assert Read24(w) == Read24(sent) && Read24(n) == Read24(sent);
    DifferenceIsSeen(w, n, p, x);
  }

  lemma LongHeadersAreSpoilt(c: seq<Byte>, t: seq<Byte>, s: seq<Byte>, x: seq<Byte>)
    requires StartsWithFrame(c) && |x| < TWO24 <= Read24(c) + |x|
    ensures Unlike(c + t, Rewritten(c, x) + s, x)
  {
    var out, n := Rewritten(c, x), Read24(c) + |x|;
    RewrittenParts(c, x);
    assert n % TWO24 == n - TWO24;
    assert Read24(c + t) == Read24(c) && Read24(out + s) == Read24(out);
    LengthIsSeen(c + t, out + s, x);
  }

  /** Whatever is sent after it, a call that is rewritten where it does not fit spoils the connection. */
  lemma MisfitIsSpoilt(rest: seq<Byte>, call: Call, t: seq<Byte>, s: seq<Byte>, x: seq<Byte>)
    requires !StartsWithFrame(rest) && !FitsHere(rest, call, x) && |x| % 256 != 0 && |x| < TWO24
    ensures !Kept(ParseFrames(rest + (call.buf + t)), ParseFrames(rest + (SentBy(call, x) + s)), x)
  {
    var c, out := call.buf, Rewritten(call.buf, x);
    var w, n := rest + (c + t), rest + (out + s);
    ThirdByteChanges(c, x);
    if rest == [] {
      assert w == c + t && n == out + s;
      LongHeadersAreSpoilt(c, t, s, x);
      UnlikeIsNotKept(w, n, x);
    } else if |rest| < 3 {
      assert w[|rest| + 2] == c[2] && n[|rest| + 2] == out[2];
      DifferenceIsSeen(w, n, |rest| + 2, x);
      UnlikeIsNotKept(w, n, x);
    } else if Misses(rest, 3) {
      ContinuedFrameIsSpoilt(rest, c, t, s, x);
      UnlikeIsNotKept(w, n, x);
    } else {
      NextLengthIsSpoilt(rest, c + t, out + s, x);
    }
  }

  // ----- all calls -----

  /** What arrives of calls that are aligned: every frame, and exactly the rewritten ones longer. */
  lemma {:induction false} AlignedDelivered(rest: seq<Byte>, calls: seq<Call>, x: seq<Byte>)
    requires Aligned(rest, calls, x) && !StartsWithFrame(rest) && |x| < TWO24
    ensures ParseFrames(rest + SentAll(calls, x)) == (AllCompleted(rest, calls, x), ParseFrames(rest + Text(calls)).1)
    decreases |calls|
  {
    if calls == [] {
      assert rest + [] == rest;
    } else {
      var c, more := calls[0], calls[1..];
      var rest' := ParseFrames(rest + c.buf).1;
      CallIsKept(rest, c, x);
      LeftoverIsUnfinished(rest + c.buf);
      AlignedDelivered(rest', more, x);
      CallGoesOn(rest, c.buf, Text(more));
      CallGoesOn(rest, SentBy(c, x), SentAll(more, x));
    }
  }

  lemma CallGoesOn(rest: seq<Byte>, c: seq<Byte>, more: seq<Byte>)
    ensures var (front, rest') := ParseFrames(rest + c);
            var (behind, rest'') := ParseFrames(rest' + more);
            ParseFrames(rest + (c + more)) == (front + behind, rest'')
  {
    Associate(rest, c, more);
    ParseGoesOn(rest + c, more);
  }

  /**
   * The peer gets the frames that were written, headers made longer, exactly when every call
   * that is rewritten starts where a frame starts and can still grow.
   */
  lemma {:induction false} KeptExactly(rest: seq<Byte>, calls: seq<Call>, x: seq<Byte>)
    requires !StartsWithFrame(rest) && |x| % 256 != 0 && |x| < TWO24
    ensures (Kept(ParseFrames(rest + Text(calls)), ParseFrames(rest + SentAll(calls, x)), x)
             <==> Aligned(rest, calls, x))
    decreases |calls|
  {
    if calls != [] {
      var c, more := calls[0], calls[1..];
      if FitsHere(rest, c, x) {
        var rest' := ParseFrames(rest + c.buf).1;
        CallIsKept(rest, c, x);
        LeftoverIsUnfinished(rest + c.buf);
        KeptExactly(rest', more, x);
        CallGoesOn(rest, c.buf, Text(more));
        CallGoesOn(rest, SentBy(c, x), SentAll(more, x));
        KeptBehind(ParseFrames(rest + c.buf).0, Completed(rest, c, x),
                   ParseFrames(rest' + Text(more)), ParseFrames(rest' + SentAll(more, x)), x);
      } else {
        MisfitIsSpoilt(rest, c, Text(more), SentAll(more, x), x);
      }
    }
  }

  /** From the start of a connection. */
  lemma ConnectionDelivered(calls: seq<Call>, x: seq<Byte>)
    requires Aligned([], calls, x) && |x| < TWO24
    ensures ParseFrames(SentAll(calls, x)) == (AllCompleted([], calls, x), ParseFrames(Text(calls)).1)
  {
    NothingBefore(SentAll(calls, x));
    NothingBefore(Text(calls));
    AlignedDelivered([], calls, x);
  }

  /** From the start of a connection, with the field the program inserts. */
  lemma ConnectionKeptExactly(calls: seq<Call>)
    ensures (Kept(ParseFrames(Text(calls)), ParseFrames(SentAll(calls, Inserted())), Inserted())
             <==> Aligned([], calls, Inserted()))
  {
    NothingBefore(SentAll(calls, Inserted()));
    NothingBefore(Text(calls));
    KeptExactly([], calls, Inserted());
  }

  /** The call is made of whole frames. */
  predicate Whole(call: seq<Byte>) {
    ParseFrames(call).1 == []
  }

  predicate AllWhole(calls: seq<Call>) {
    forall i :: 0 <= i < |calls| ==> Whole(calls[i].buf)
  }

  predicate AllFit(calls: seq<Call>, x: seq<Byte>) {
    forall i :: 0 <= i < |calls| ==> FitsHere([], calls[i], x)
  }

  /** Calls of whole frames are aligned, unless one starts with headers too long to grow. */
  lemma {:induction false} WholeCallsAligned(calls: seq<Call>, x: seq<Byte>)
    requires AllWhole(calls)
    ensures Aligned([], calls, x) <==> AllFit(calls, x)
  {
    if calls != [] {
      NothingBefore(calls[0].buf);
      WholeCallsAligned(calls[1..], x);
      assert AllFit(calls, x) <==> FitsHere([], calls[0], x) && AllFit(calls[1..], x);
    }
  }

  // ----- calls of whole frames, and a frame in two calls -----

  /** The frames of a call of whole frames, the first one longer if the call is rewritten. */
  function FirstExtended(call: Call, x: seq<Byte>): seq<Frame> {
    var frames := ParseFrames(call.buf).0;
    if Rewrites(call, x) && frames != [] then [Extended(frames[0], x)] + frames[1..] else frames
  }

  function AllExtended(calls: seq<Call>, x: seq<Byte>): seq<Frame> {
    if calls == [] then [] else FirstExtended(calls[0], x) + AllExtended(calls[1..], x)
  }

  lemma {:induction false} WholeCallsCompleted(calls: seq<Call>, x: seq<Byte>)
    requires AllWhole(calls)
    ensures AllCompleted([], calls, x) == AllExtended(calls, x)
  {
    if calls != [] {
      NothingBefore(calls[0].buf);
      WholeCallsCompleted(calls[1..], x);
    }
  }

  lemma {:induction false} NothingIsLeft(calls: seq<Call>)
    requires AllWhole(calls)
    ensures Whole(Text(calls))
  {
    if calls != [] {
      NothingIsLeft(calls[1..]);
      ParseGoesOn(calls[0].buf, Text(calls[1..]));
      NothingBefore(Text(calls[1..]));
    }
  }

  /** When every call is made of whole frames, the peer gets all frames, the first of each rewritten call extended. */
  lemma WholeCallsDelivered(calls: seq<Call>, x: seq<Byte>)
    requires AllWhole(calls) && AllFit(calls, x) && |x| < TWO24
    ensures ParseFrames(SentAll(calls, x)) == (AllExtended(calls, x), [])
  {
    WholeCallsAligned(calls, x);
    ConnectionDelivered(calls, x);
    WholeCallsCompleted(calls, x);
    NothingIsLeft(calls);
  }

  /** The header of a DATA frame of nine bytes. */
  function DataHeader(): (b: seq<Byte>)
    ensures |b| == 9 && Read24(b) == 9
  {
    [0, 0, 9, 0, 0, 0, 0, 0, 1]
  }

  /** Nine bytes that look like an empty HEADERS frame. */
  function Lookalike(): (b: seq<Byte>)
    ensures |b| == 9 && StartsWithHeaders(b)
  {
    var b: seq<Byte> := [0, 0, 0, 1, 4, 0, 0, 0, 1];
    assert b[5..9] == [0, 0, 0, 1];
    b
  }

  /** A DATA frame in two calls arrives with another payload, whatever is sent after it. */
  lemma SplitDataIsSpoilt(more: seq<Call>, x: seq<Byte>)
    requires |x| % 256 != 0 && |x| + 9 <= INT_MAX
    ensures var calls := [Call(DataHeader(), true), Call(Lookalike(), true)] + more;
            var was, now := ParseFrames(Text(calls)), ParseFrames(SentAll(calls, x));
            && !Kept(was, now, x)
            && was.0 != [] && now.0 != [] && |now.0[0].payload| == |was.0[0].payload|
            && now.0[0].payload != was.0[0].payload
  {
    var a, b := Call(DataHeader(), true), Call(Lookalike(), true);
    var calls := [a, b] + more;
    assert calls[1..] == [b] + more && calls[1..][1..] == more;
    var t, s := Text(more), SentAll(more, x);
    assert SentBy(a, x) == a.buf && SentBy(b, x) == Rewritten(b.buf, x);
    assert Text(calls) == a.buf + (b.buf + t) && SentAll(calls, x) == a.buf + (Rewritten(b.buf, x) + s);
    ContinuedFrameIsSpoilt(a.buf, b.buf, t, s, x);
    RewrittenParts(b.buf, x);
    UnlikeIsNotKept(Text(calls), SentAll(calls, x), x);
    ParseFramesSteps(Text(calls));
    ParseFramesSteps(SentAll(calls, x));
  }
}
