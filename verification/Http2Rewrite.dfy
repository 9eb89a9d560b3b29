/**
 * The interposed `SSL_write` for HTTP/2: it appends one header field to the block
 * of a leading HEADERS frame.  Frames are those of sections 4.1 and 6.2 of RFC 7540.
 */
module Http2Rewrite {
  import opened Numbers
  import opened Sequences
  import opened Frames
  import opened Buffers
  import opened Hpack

  const FRAME_HEADER: nat := 9
  const TYPE_HEADERS := 0x01
  const FLAG_END_HEADERS := 0x04
  const FLAG_PADDED := 0x08
  const FLAG_PRIORITY := 0x20

  // ----- frames -----

  datatype Frame = Frame(kind: Byte, flags: Byte, stream: seq<Byte>, payload: seq<Byte>)

  function Read24(p: seq<Byte>): (n: nat)
    requires |p| >= 3
    ensures n < TWO24
  {
    p[0] as int * 0x1_0000 + p[1] as int * 0x100 + p[2]
  }

  function Enc24(v: nat): (p: seq<Byte>)
    ensures |p| == 3
  {
    [v / 0x1_0000 % 256, v / 0x100 % 256, v % 256]
  }

  lemma Enc24ReadsBack(v: nat)
    ensures Read24(Enc24(v)) == v % TWO24
  {
    var m := v / 0x100;
    var k := m / 0x100;
    assert v / 0x1_0000 == k;
    DigitsOf(v, m, k, k / 0x100);
  }

  lemma DigitsOf(v: nat, m: nat, k: nat, q: nat)
    requires m == v / 0x100 && k == m / 0x100 && q == k / 0x100
    ensures v % TWO24 == k % 0x100 * 0x1_0000 + m % 0x100 * 0x100 + v % 0x100
  {
    var r := k % 0x100 * 0x1_0000 + m % 0x100 * 0x100 + v % 0x100;
    assert v == TWO24 * q + r && r < TWO24;
  }

  /** 31-bit stream identifier; the first bit is reserved. */
  function StreamId(s: seq<Byte>): nat
    requires |s| == 4
  {
    s[0] as int % 128 * 0x100_0000 + s[1] as int * 0x1_0000 + s[2] as int * 0x100 + s[3]
  }

  /** The big-endian number without its first bit. */
  lemma StreamIdIsNumber(s: seq<Byte>)
    requires |s| == 4
    ensures StreamId(s) == Be32(s) - if s[0] < 0x80 then 0 else 0x8000_0000
  {
  }

  /** A whole frame stands at the front of the buffer. */
  predicate StartsWithFrame(buf: seq<Byte>) {
    |buf| >= FRAME_HEADER && |buf| >= FRAME_HEADER + Read24(buf)
  }

  function FirstFrame(buf: seq<Byte>): Frame
    requires StartsWithFrame(buf)
  {
    Frame(buf[3], buf[4], buf[5..9], buf[FRAME_HEADER..FRAME_HEADER + Read24(buf)])
  }

  /** All whole frames from the front, and the bytes left over. */
  function ParseFrames(buf: seq<Byte>): (seq<Frame>, seq<Byte>)
    decreases |buf|
  {
    if StartsWithFrame(buf) then
      var (frames, rest) := ParseFrames(buf[FRAME_HEADER + Read24(buf)..]);
      ([FirstFrame(buf)] + frames, rest)
    else ([], buf)
  }

  /** A frame on the wire. */
  function Printed(f: Frame): (b: seq<Byte>)
    requires |f.stream| == 4
    ensures |b| == FRAME_HEADER + |f.payload|
  {
    Enc24(|f.payload|) + [f.kind, f.flags] + f.stream + f.payload
  }

  /** A legal length and a whole stream field. */
  type WireFrame = f: Frame | |f.stream| == 4 && |f.payload| < TWO24 witness Frame(0, 0, [0, 0, 0, 0], [])

  function PrintedAll(frames: seq<WireFrame>): seq<Byte> {
    if frames == [] then [] else Printed(frames[0]) + PrintedAll(frames[1..])
  }

  lemma FirstFrameReadsBack(f: WireFrame, more: seq<Byte>)
    ensures var b := Printed(f) + more;
            StartsWithFrame(b) && FirstFrame(b) == f && b[FRAME_HEADER + Read24(b)..] == more
  {
    var b, n := Printed(f) + more, |f.payload|;
    Enc24ReadsBack(n);
    assert n % TWO24 == n;
    assert b[..3] == Enc24(n);
    assert Read24(b) == n;
    assert b[5..9] == f.stream && b[9..9 + n] == f.payload && b[9 + n..] == more;
  }

  lemma ParseFramesSteps(buf: seq<Byte>)
    requires StartsWithFrame(buf)
    ensures var (frames, rest) := ParseFrames(buf);
            var (others, rest') := ParseFrames(buf[FRAME_HEADER + Read24(buf)..]);
            rest == rest' && frames == [FirstFrame(buf)] + others && frames[1..] == others
  {
  }

  /** Frames of legal length, with an incomplete frame after them, are parsed back. */
  lemma {:induction false} ParseUndoesPrint(frames: seq<WireFrame>, rest: seq<Byte>)
    requires !StartsWithFrame(rest)
    ensures ParseFrames(PrintedAll(frames) + rest) == (frames, rest)
  {
    if frames == [] {
      assert [] + rest == rest;
    } else {
      var more := PrintedAll(frames[1..]) + rest;
      Associate(Printed(frames[0]), PrintedAll(frames[1..]), rest);
      ParseUndoesPrint(frames[1..], rest);
      FirstFrameReadsBack(frames[0], more);
      ParseFramesSteps(Printed(frames[0]) + more);
      assert frames == [frames[0]] + frames[1..];
    }
  }

  // ----- the inserted field -----

  /** ASCII of a string literal. */
  function Ascii(s: string): (b: seq<Byte>)
    ensures |b| == |s| && forall i :: 0 <= i < |s| && s[i] as int < 256 ==> b[i] == s[i] as int
  {
    seq(|s|, i requires 0 <= i < |s| => s[i] as int % 256)
  }

  const NAME := "x-nf-signature"
  const VALUE := "test-signature"

  /** The header that is added: its name and its value, letter by letter. */
  function Signature(): (h: Header)
    ensures h.name == [120, 45, 110, 102, 45, 115, 105, 103, 110, 97, 116, 117, 114, 101]
    ensures h.value == [116, 101, 115, 116, 45, 115, 105, 103, 110, 97, 116, 117, 114, 101]
  {
    Header(Ascii(NAME), Ascii(VALUE))
  }

  /** Its 31 bytes. */
  function Inserted(): (x: seq<Byte>)
    ensures |x| == 31 && x[0] == 0
  {
    PlainLiteral(Signature())
  }

  /** Byte by byte: no index, and a length before each string. */
  lemma InsertedBytes()
    ensures Inserted() == [0, 14] + [120, 45, 110, 102, 45, 115, 105, 103, 110, 97, 116, 117, 114, 101]
                          + [14] + [116, 101, 115, 116, 45, 115, 105, 103, 110, 97, 116, 117, 114, 101]
  {
    LiteralParts(Signature());
  }

  lemma LiteralParts(h: Header)
    requires |h.name| < 127 && |h.value| < 127
    ensures PlainLiteral(h) == [0, |h.name|] + h.name + [|h.value|] + h.value
  {
    assert [0] + ([|h.name|] + h.name) == [0, |h.name|] + h.name;
    Associate([0, |h.name|] + h.name, [|h.value|], h.value);
  }

  /** The frame the rewriting aims at. */
  function Extended(f: Frame, x: seq<Byte>): Frame {
    f.(payload := f.payload + x)
  }

  // ----- what the program sends -----

  /** The buffer starts with a complete HEADERS frame on a stream. */
  predicate StartsWithHeaders(buf: seq<Byte>) {
    StartsWithFrame(buf) && buf[3] == TYPE_HEADERS && StreamId(buf[5..9]) != 0
  }

  /** The buffer with `x` after its first frame and that frame's length made to cover it. */
  function Rewritten(buf: seq<Byte>, x: seq<Byte>): seq<Byte>
    requires StartsWithFrame(buf)
  {
    var end := FRAME_HEADER + Read24(buf);
    Enc24(Read24(buf) + |x|) + buf[3..end] + x + buf[end..]
  }

  /** A call of `SSL_write`, and whether an allocation of positive size succeeds in it. */
  datatype Call = Call(buf: seq<Byte>, memory: bool)

  /** The call adds `x`. */
  predicate Rewrites(call: Call, x: seq<Byte>) {
    StartsWithHeaders(call.buf) && |call.buf| + |x| <= INT_MAX && call.memory
  }

  /** What the call sends. */
  function SentBy(call: Call, x: seq<Byte>): seq<Byte> {
    if Rewrites(call, x) then Rewritten(call.buf, x) else call.buf
  }

  /** What a call sends, in positions and bytes of its buffer. */
  lemma SentInBytes(call: Call, x: seq<Byte>)
    ensures var buf := call.buf;
            if && |buf| >= 9 && buf[3] == 1
               && (buf[5] % 128 != 0 || buf[6] != 0 || buf[7] != 0 || buf[8] != 0)
               && |buf| >= 9 + Read24(buf) && |buf| + |x| <= 0x7fff_ffff && call.memory
            then
              var n, end := Read24(buf) + |x|, 9 + Read24(buf);
              SentBy(call, x)
              == [n / 0x1_0000 % 0x100, n / 0x100 % 0x100, n % 0x100] + buf[3..end] + x + buf[end..]
            else SentBy(call, x) == buf
  {
  }

  method Write24(p: array<Byte>, v: nat)
    requires p.Length >= 3
    modifies p
    ensures p[..] == Enc24(v) + old(p[..][3..])
  {
    p[0] := v / 0x1_0000 % 256;
    p[1] := v / 0x100 % 256;
    p[2] := v % 256;
  }

  /** Fills a scratch buffer with the literal and returns how much of it is used. */
  method BuildLiteral(hpack: array<Byte>, name: seq<Byte>, value: seq<Byte>) returns (pos: nat)
    requires hpack.Length == 256 && |name| < 127 && |value| < 127
    modifies hpack
    ensures pos == 3 + |name| + |value|
    ensures hpack[..pos] == PlainLiteral(Header(name, value))
  {
    hpack[0] := 0x00;
    pos := AppendString(hpack, 1, name);
    assert hpack[..pos] == [0] + PlainString(name);
    ghost var front := hpack[..pos];
    var start := pos;
    pos := AppendString(hpack, start, value);
    assert hpack[..pos] == front + hpack[start..pos];
  }

  /** A length and the characters; nothing before them changes. */
  method AppendString(hpack: array<Byte>, start: nat, s: seq<Byte>) returns (pos: nat)
    requires start + 1 + |s| <= hpack.Length && |s| < 127
    modifies hpack
    ensures pos == start + 1 + |s|
    ensures hpack[..start] == old(hpack[..start]) && hpack[start..pos] == PlainString(s)
  {
    hpack[start] := |s|;
    CopyInto(hpack, start + 1, s);
    pos := start + 1 + |s|;
    assert hpack[start..pos] == [hpack[start]] + hpack[start + 1..pos];
  }

  /** Builds the longer buffer, unless memory for it cannot be had. */
  method WithField(data: array<Byte>, num: nat, len: nat, name: seq<Byte>, value: seq<Byte>, mallocOk: bool)
    returns (sent: array<Byte>, sentNum: int)
    requires |name| < 127 && |value| < 127
    requires num <= data.Length && num <= INT_MAX && StartsWithFrame(data[..num]) && len == Read24(data[..num])
    ensures data[..] == old(data[..])
    ensures var x := PlainLiteral(Header(name, value));
            if num + |x| <= INT_MAX && mallocOk
            then fresh(sent) && sentNum == num + |x| && sent[..] == Rewritten(data[..num], x)
            else sent == data && sentNum == num
  {
    var hpack := new Byte[256](i => 0);
    var pos := BuildLiteral(hpack, name, value);
    var newNum := ToInt32(num + pos);
    if newNum < 0 || !mallocOk {
      return data, num;
    }
    sent := Extend(data, num, len, hpack[..pos]);
    sentNum := newNum;
  }

  /** A new buffer with `x` at the end of the first frame. */
  method Extend(data: array<Byte>, num: nat, len: nat, x: seq<Byte>) returns (sent: array<Byte>)
    requires num <= data.Length && StartsWithFrame(data[..num]) && len == Read24(data[..num])
    ensures fresh(sent) && sent[..] == Rewritten(data[..num], x)
  {
    ghost var buf := data[..num];
    var insertAt := 9 + len;
    assert data[..insertAt] == buf[..insertAt] && data[insertAt..num] == buf[insertAt..];
    sent := new Byte[num + |x|](i => 0);
    Splice(sent, data, num, insertAt, x);
    ghost var spliced := sent[..];
    assert spliced == sent[..num + |x|] == buf[..insertAt] + x + buf[insertAt..];
    Write24(sent, len + |x|);
    assert sent[..] == Enc24(len + |x|) + spliced[3..];
    SpliceRewrites(buf, x);
  }

  lemma SpliceRewrites(buf: seq<Byte>, x: seq<Byte>)
    requires StartsWithFrame(buf)
    ensures var len := Read24(buf);
            Enc24(len + |x|) + (buf[..9 + len] + x + buf[9 + len..])[3..] == Rewritten(buf, x)
  {
  }

  /**
   * The interposed call: what is handed to the real `SSL_write`.  `mallocOk` says
   * whether an allocation of positive size succeeds.
   */
  method SslWrite(data: array<Byte>, num: int, mallocOk: bool) returns (sent: array<Byte>, sentNum: int)
    requires num <= data.Length && num <= INT_MAX
    ensures data[..] == old(data[..])
    ensures num >= 0 && StartsWithHeaders(data[..num]) && num + 31 <= INT_MAX && mallocOk ==>
              fresh(sent) && sentNum == num + 31 && sent[..] == Rewritten(data[..num], Inserted())
    ensures !(num >= 0 && StartsWithHeaders(data[..num]) && num + 31 <= INT_MAX && mallocOk) ==>
              sent == data && sentNum == num
    ensures num >= 0 ==>
              0 <= sentNum <= sent.Length && sent[..sentNum] == SentBy(Call(data[..num], mallocOk), Inserted())
  {
    if num >= 9 {
      var buf := data[..num];
      var len := Read24(data[0..3]);
      var kind := data[3];
      var stream := data[5] as int % 128 * 0x100_0000 + data[6] as int * 0x1_0000 + data[7] as int * 0x100 + data[8];
      assert len == Read24(buf) && stream == StreamId(buf[5..9]);
      if kind == TYPE_HEADERS && stream != 0 && num >= 9 + len {
        sent, sentNum := WithField(data, num, len, Ascii(NAME), Ascii(VALUE), mallocOk);
        return;
      }
    }
    return data, num;
  }

  // ----- framing is preserved -----

  /** The rewritten buffer splits into the same frames, the first one extended. */
  ghost predicate FramingKept(buf: seq<Byte>, x: seq<Byte>)
    requires StartsWithFrame(buf)
  {
    var (frames, rest) := ParseFrames(buf);
    ParseFrames(Rewritten(buf, x)) == ([Extended(frames[0], x)] + frames[1..], rest)
  }

  lemma RewrittenParts(buf: seq<Byte>, x: seq<Byte>)
    requires StartsWithFrame(buf)
    ensures var out, len := Rewritten(buf, x), Read24(buf);
            && |out| == |buf| + |x| && Read24(out) == (len + |x|) % TWO24
            && out[3] == buf[3] && out[4] == buf[4] && out[5..9] == buf[5..9]
            && out[9..9 + len + |x|] == buf[9..9 + len] + x
            && out[9 + len + |x|..] == buf[9 + len..]
  {
    var out, len := Rewritten(buf, x), Read24(buf);
    Enc24ReadsBack(len + |x|);
    assert out[..3] == Enc24(len + |x|);
    assert forall i :: 3 <= i < 9 + len ==> out[i] == buf[i];
    assert out[5..9] == buf[5..9];
  }

  lemma FirstFrameExtended(buf: seq<Byte>, x: seq<Byte>)
    requires StartsWithFrame(buf) && Read24(buf) + |x| < TWO24
    ensures var out := Rewritten(buf, x);
            && StartsWithFrame(out) && FirstFrame(out) == Extended(FirstFrame(buf), x)
            && out[FRAME_HEADER + Read24(out)..] == buf[FRAME_HEADER + Read24(buf)..]
  {
    var n := Read24(buf) + |x|;
    RewrittenParts(buf, x);
    assert n % TWO24 == n;
    assert Read24(Rewritten(buf, x)) == n;
  }

  lemma LongFrameIsCut(buf: seq<Byte>, x: seq<Byte>)
    requires StartsWithFrame(buf) && |x| < TWO24 <= Read24(buf) + |x|
    ensures var out := Rewritten(buf, x);
            StartsWithFrame(out) && |FirstFrame(out).payload| < |x|
  {
    var out, n := Rewritten(buf, x), Read24(buf) + |x|;
    RewrittenParts(buf, x);
    assert n % TWO24 == n - TWO24;
    assert Read24(out) == n - TWO24;
  }

  /** The frame sequence is preserved exactly when the extended length still fits in 24 bits. */
  lemma FramingKeptExactly(buf: seq<Byte>, x: seq<Byte>)
    requires StartsWithFrame(buf) && |x| < TWO24
    ensures FramingKept(buf, x) <==> Read24(buf) + |x| < TWO24
  {
    ParseFramesSteps(buf);
    if Read24(buf) + |x| < TWO24 {
      FirstFrameExtended(buf, x);
    } else {
      LongFrameIsCut(buf, x);
    }
    ParseFramesSteps(Rewritten(buf, x));
  }
}
