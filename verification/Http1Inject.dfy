/**
 * The interposed `SSL_write` for HTTP/1.1: it puts one header line into a buffer in
 * which the blank line that ends the header section is found.  Messages are those of
 * section 2.1 of RFC 9112.  A `char` stands for one byte.
 */
module Http1Inject {
  import opened Options
  import opened Numbers
  import opened Sequences
  import opened Buffers
  import opened CStrings

  const CRLF := "\r\n"
  const LINE := "X-NF-Signature: test-signature"

  // ----- messages -----

  /** The empty line that ends a header section starts with the line break at `k`. */
  predicate EndAt(s: string, k: nat) {
    k + 4 <= |s| && s[k] == '\r' && s[k + 1] == '\n' && s[k + 2] == '\r' && s[k + 3] == '\n'
  }

  predicate FirstEndAt(s: string, k: nat) {
    EndAt(s, k) && forall j: nat :: j < k ==> !EndAt(s, j)
  }

  /** `strstr` for CRLF CRLF, from position `i` on. */
  function FindEnd(s: string, i: nat): (r: Option<nat>)
    ensures r.Some? ==> i <= r.value && EndAt(s, r.value) && forall j: nat :: i <= j < r.value ==> !EndAt(s, j)
    ensures r.None? ==> forall j: nat :: i <= j ==> !EndAt(s, j)
    decreases |s| - i
  {
    if i + 4 > |s| then None
    else if EndAt(s, i) then Some(i)
    else FindEnd(s, i + 1)
  }

  predicate StartsWithBreak(s: string) {
    |s| >= 2 && s[0] == '\r' && s[1] == '\n'
  }

  /** The pieces of `s` between line breaks. */
  function Lines(s: string): (lines: seq<string>)
    ensures |lines| > 0
    decreases |s|
  {
    if s == [] then [[]]
    else if StartsWithBreak(s) then [[]] + Lines(s[2..])
    else
      Prefixed(s[0], Lines(s[1..]))
  }

  /** The first line gets one more character in front. */
  function Prefixed(x: char, lines: seq<string>): (r: seq<string>)
    requires |lines| > 0
    ensures |r| == |lines|
  {
    [[x] + lines[0]] + lines[1..]
  }

  datatype Message = Message(lines: seq<string>, body: string)

  /** The start line and header lines before the first empty line, and the rest. */
  function Parse(s: string): Option<Message> {
    match FindEnd(s, 0)
    case None => None
    case Some(k) => Some(Message(Lines(s[..k]), s[k + 4..]))
  }

  function Joined(lines: seq<string>): string
    requires |lines| > 0
  {
    if |lines| == 1 then lines[0] else lines[0] + CRLF + Joined(lines[1..])
  }

  lemma JoinedPrefixed(x: char, lines: seq<string>)
    requires |lines| > 0
    ensures Joined(Prefixed(x, lines)) == [x] + Joined(lines)
  {
    assert Prefixed(x, lines)[1..] == lines[1..];
    if |lines| > 1 {
      Associate([x] + lines[0], CRLF, Joined(lines[1..]));
      Associate([x], lines[0], CRLF + Joined(lines[1..]));
      Associate(lines[0], CRLF, Joined(lines[1..]));
    }
  }

  lemma JoinedEmptyFirst(lines: seq<string>)
    requires |lines| > 0
    ensures Joined([[]] + lines) == CRLF + Joined(lines)
  {
    assert ([[]] + lines)[1..] == lines;
    assert [] + CRLF == CRLF;
  }

  /** Splitting at line breaks loses nothing. */
  lemma {:induction false} JoinedLines(s: string)
    ensures Joined(Lines(s)) == s
    decreases |s|
  {
    if StartsWithBreak(s) {
      JoinedLines(s[2..]);
      JoinedEmptyFirst(Lines(s[2..]));
      assert s == CRLF + s[2..];
    } else if s != [] {
      JoinedLines(s[1..]);
      JoinedPrefixed(s[0], Lines(s[1..]));
    }
  }

  /** A parsed message holds everything that was in the text. */
  lemma PrintUndoesParse(s: string)
    requires Parse(s).Some?
    ensures var m := Parse(s).value;
            |m.lines| > 0 && s == Joined(m.lines) + CRLF + CRLF + m.body
  {
    var k := FindEnd(s, 0).value;
    JoinedLines(s[..k]);
    assert s[k..k + 4] == CRLF + CRLF;
    assert s == s[..k] + s[k..k + 4] + s[k + 4..];
  }

  lemma {:induction false} LinesOfJoined(a: string, b: string)
    ensures Lines(a + CRLF + b) == Lines(a) + Lines(b)
    decreases |a|
  {
    var s := a + CRLF + b;
    if a == [] {
      assert s[2..] == b;
    } else if StartsWithBreak(a) {
      LinesOfJoined(a[2..], b);
      assert s[2..] == a[2..] + CRLF + b;
      Associate([[]], Lines(a[2..]), Lines(b));
    } else {
      LinesOfJoined(a[1..], b);
      assert s[1..] == a[1..] + CRLF + b;
      assert s[0] == a[0] && s[1] == if |a| > 1 then a[1] else '\r';
      PrefixedSplits(a[0], Lines(a[1..]), Lines(b));
    }
  }

  lemma PrefixedSplits(x: char, l: seq<string>, m: seq<string>)
    requires |l| > 0
    ensures Prefixed(x, l + m) == Prefixed(x, l) + m
  {
  }

  /** Text without a carriage return is one line. */
  lemma {:induction false} OneLine(s: string)
    requires '\r' !in s
    ensures Lines(s) == [s]
    decreases |s|
  {
    if s != [] {
      assert s[0] != '\r';
      OneLine(s[1..]);
      assert [s[0]] + s[1..] == s;
    }
  }

  // ----- what the injection does to a message -----

  /** The line goes in before the empty line whose line break starts at `k`. */
  function Injected(s: string, k: nat, line: string): string
    requires k + 2 <= |s|
  {
    s[..k + 2] + (line + CRLF) + s[k + 2..]
  }

  /** The header section ends exactly the injected length later. */
  lemma EndMoves(s: string, k: nat, line: string)
    requires FirstEndAt(s, k) && line != [] && '\r' !in line && '\n' !in line
    ensures FirstEndAt(Injected(s, k, line), k + |line| + 2)
  {
    var out, n := Injected(s, k, line), |line|;
    assert forall i :: 0 <= i < k + 2 ==> out[i] == s[i];
    assert forall i :: 0 <= i < n ==> out[k + 2 + i] == line[i] && line[i] in line;
    assert out[k + 2 + n] == '\r' && out[k + 3 + n] == '\n';
    assert out[k + 4 + n] == s[k + 2] && out[k + 5 + n] == s[k + 3];
    forall j: nat | j < k + n + 2 ensures !EndAt(out, j) {
      if j + 4 <= k + 2 {
        assert !EndAt(s, j);
      } else if j < k {
        assert out[k + 2] == line[0];
      } else if j == k {
        assert out[k + 2] == line[0];
      } else if j > k + 1 {
        assert out[j] == line[j - k - 2];
      }
    }
  }

  lemma FirstEndFound(s: string, k: nat)
    requires FirstEndAt(s, k)
    ensures FindEnd(s, 0) == Some(k)
  {
  }

  /** The header lines are the old ones followed by the new one, and the body is the old one. */
  lemma InjectionAddsLine(s: string, k: nat, line: string)
    requires FirstEndAt(s, k) && line != [] && '\r' !in line && '\n' !in line
    ensures Parse(s).Some?
    ensures var m := Parse(s).value;
            Parse(Injected(s, k, line)) == Some(Message(m.lines + [line], m.body))
  {
    var out, e := Injected(s, k, line), k + |line| + 2;
    FirstEndFound(s, k);
    EndMoves(s, k, line);
    FirstEndFound(out, e);
    assert s[..k + 2] == s[..k] + CRLF;
    assert out[..e] == s[..k] + CRLF + line;
    LinesOfJoined(s[..k], line);
    OneLine(line);
    assert out[e + 4..] == s[k + 4..];
  }

  // ----- the call -----

  /** `mem` is the memory that can be read from the buffer on, of which `num` bytes are to be written. */
  datatype Call = Call(mem: string, num: nat, mallocOk: bool)

  predicate ValidCall(c: Call) {
    c.num <= |c.mem| && c.num <= INT_MAX
  }

  /** The search looks at the C string in memory, not at the `num` bytes. */
  predicate Triggers(c: Call) {
    c.num > 0 && c.mallocOk && FindEnd(CStr(c.mem), 0).Some?
  }

  /** What the real `SSL_write` is given: bytes, or a length that turned negative, unless a copy goes out of range. */
  datatype Outcome = Sent(bytes: string) | NegativeLength | OutOfRange

  function Written(c: Call, line: string): Outcome
    requires ValidCall(c)
  {
    if !Triggers(c) then Sent(c.mem[..c.num])
    else
      var k := FindEnd(CStr(c.mem), 0).value;
      if k + 2 > c.num then OutOfRange
      else if c.num + |line| + 2 > INT_MAX then NegativeLength
      else Sent(Injected(c.mem[..c.num], k, line))
  }

  /** A call that triggers puts in the line and its line break before the blank line, if it can. */
  lemma TriggeredInFull(c: Call, line: string, k: nat)
    requires ValidCall(c) && c.num > 0 && c.mallocOk && FirstEndAt(CStr(c.mem), k)
    ensures Written(c, line)
         == if c.num < k + 2 then OutOfRange
            else if c.num + |line| + 2 > 0x7fff_ffff then NegativeLength
            else Sent(c.mem[..k + 2] + line + ['\r', '\n'] + c.mem[k + 2..c.num])
  {
    FirstEndFound(CStr(c.mem), k);
    var s := c.mem[..c.num];
    if k + 2 <= c.num {
      assert s[..k + 2] == c.mem[..k + 2] && s[k + 2..] == c.mem[k + 2..c.num];
      Associate(c.mem[..k + 2], line, CRLF);
    }
  }

  /** Any other call sends its bytes as they are. */
  lemma OthersAreUnchanged(c: Call, s: string, line: string)
    requires ValidCall(c) && s == CStr(c.mem)
    requires c.num == 0 || !c.mallocOk || forall k: nat :: !EndAt(s, k)
    ensures Written(c, line) == Sent(c.mem[..c.num])
  {
    assert FindEnd(s, 0).Some? ==> EndAt(s, FindEnd(s, 0).value);
  }

  /** A new buffer, one byte longer than needed, with the line put in. */
  method Build(data: array<char>, num: nat, k: nat, line: string) returns (sent: array<char>)
    requires k + 2 <= num <= data.Length
    ensures fresh(sent) && sent.Length == num + |line| + 3
    ensures sent[..num + |line| + 2] == Injected(data[..num], k, line)
  {
    var inject := line + CRLF;
    sent := new char[num + |inject| + 1](i => NUL);
    ghost var s := data[..num];
    Splice(sent, data, num, k + 2, inject);
    assert s[..k + 2] == data[..k + 2] && s[k + 2..] == data[k + 2..num];
  }

  /** The values handed on stand for the outcome `o`. */
  predicate Shows(o: Outcome, sent: array<char>, sentNum: int, inRange: bool)
    reads sent
  {
    match o
    case Sent(bytes) => inRange && 0 <= sentNum <= sent.Length && sent[..sentNum] == bytes
    case NegativeLength => inRange && sentNum < 0
    case OutOfRange => !inRange
  }

  /** The call, for any line. */
  method WriteWithLine(data: array<char>, num: int, mallocOk: bool, line: string)
    returns (sent: array<char>, sentNum: int, inRange: bool)
    requires num <= data.Length && num <= INT_MAX && |line| < 100
    requires NUL in data[..] || FindEnd(CStr(data[..]), 0).Some?
    ensures data[..] == old(data[..])
    ensures num < 0 ==> inRange && sent == data && sentNum == num
    ensures num >= 0 ==> Shows(Written(Call(data[..], num, mallocOk), line), sent, sentNum, inRange)
    ensures num >= 0 && !Triggers(Call(data[..], num, mallocOk)) ==> sent == data && sentNum == num
  {
    sent, sentNum, inRange := data, num, true;
    var headerEnd := FindEnd(CStr(data[..]), 0);
    if num > 0 && headerEnd.Some? {
      if !mallocOk {
        return;
      }
      var k := headerEnd.value;
      if k + 2 > num {
        inRange := false;
        return;
      }
      sent := Build(data, num, k, line);
      sentNum := ToInt32(num + |line| + 2);
      assert sentNum == if num + |line| + 2 <= INT_MAX then num + |line| + 2 else num + |line| + 2 - TWO32;
      assert data[..][..num] == data[..num];
    }
  }

  /**
   * The interposed call: what is handed to the real `SSL_write`.  The search stays in
   * memory when it meets a NUL or a match there.  `inRange` tells whether every copy does.
   */
  method SslWrite(data: array<char>, num: int, mallocOk: bool)
    returns (sent: array<char>, sentNum: int, inRange: bool)
    requires num <= data.Length && num <= INT_MAX
    requires NUL in data[..] || FindEnd(CStr(data[..]), 0).Some?
    ensures data[..] == old(data[..])
    ensures num < 0 ==> inRange && sent == data && sentNum == num
    ensures num >= 0 ==>
              match Written(Call(data[..], num, mallocOk), "X-NF-Signature: test-signature")
              case Sent(bytes) => inRange && 0 <= sentNum <= sent.Length && sent[..sentNum] == bytes
              case NegativeLength => inRange && sentNum < 0
              case OutOfRange => !inRange
    ensures num >= 0 && !Triggers(Call(data[..], num, mallocOk)) ==> sent == data && sentNum == num
  {
    sent, sentNum, inRange := WriteWithLine(data, num, mallocOk, LINE);
  }

  /** The line meets what the lemmas here ask of one. */
  lemma LineFits()
    ensures |LINE| == 30 && '\r' !in LINE && '\n' !in LINE
  {
  }
}
