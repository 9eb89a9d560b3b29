/**
 * A message handed over in several calls, each of which may inject its line: when the
 * connection carries the message with the line added once, in the right place.
 */
module Http1Streams {
  import opened Options
  import opened Numbers
  import opened Sequences
  import opened CStrings
  import opened Http1Inject

  // ----- a message written in several calls -----

  predicate AllValid(calls: seq<Call>) {
    forall i :: 0 <= i < |calls| ==> ValidCall(calls[i])
  }

  predicate NoneTriggers(calls: seq<Call>) {
    forall i :: 0 <= i < |calls| ==> !Triggers(calls[i])
  }

  /** All that reaches the connection over several calls, if every one of them sends something. */
  function Stream(calls: seq<Call>, line: string): Option<string>
    requires AllValid(calls)
  {
    if calls == [] then Some([])
    else
      match (Written(calls[0], line), Stream(calls[1..], line))
      case (Sent(bytes), Some(more)) => Some(bytes + more)
      case _ => None
  }

  /** What the program meant to send. */
  function Plain(calls: seq<Call>): string
    requires AllValid(calls)
  {
    if calls == [] then [] else calls[0].mem[..calls[0].num] + Plain(calls[1..])
  }

  /** Without a trigger the stream is what was meant; with one it is longer, or broken. */
  lemma {:induction false} StreamIsPlain(calls: seq<Call>, line: string)
    requires AllValid(calls)
    ensures Stream(calls, line).Some? ==> |Stream(calls, line).value| >= |Plain(calls)|
    ensures Stream(calls, line) == Some(Plain(calls)) <==> NoneTriggers(calls)
  {
    if calls != [] {
      var s, rest := calls[0].mem[..calls[0].num], Plain(calls[1..]);
      StreamIsPlain(calls[1..], line);
      assert NoneTriggers(calls) <==> !Triggers(calls[0]) && NoneTriggers(calls[1..]);
      if Stream(calls, line).Some? {
        var bytes, more := Written(calls[0], line).bytes, Stream(calls[1..], line).value;
        assert Stream(calls, line).value == bytes + more;
        assert |bytes| == if Triggers(calls[0]) then |s| + |line| + 2 else |s|;
        SameLengthParts(bytes, more, s, rest);
      }
    }
  }

  /** The stream of several calls carries the message with its line added and its body unchanged. */
  ghost predicate Delivered(calls: seq<Call>, line: string)
    requires AllValid(calls)
  {
    var was, now := Parse(Plain(calls)), Stream(calls, line);
    && was.Some? && now.Some?
    && Parse(now.value) == Some(Message(was.value.lines + [line], was.value.body))
  }

  lemma SameLengthParts(a: string, b: string, s: string, t: string)
    requires |a| >= |s| && |b| >= |t|
    ensures a + b == s + t <==> a == s && b == t
  {
    if a + b == s + t {
      assert |a| == |s|;
      assert a == (a + b)[..|a|] && s == (s + t)[..|s|];
      assert b == (a + b)[|a|..] && t == (s + t)[|s|..];
    }
  }

  /** The buffer that holds the header section, followed by anything at all, as it was and with the line. */
  lemma FirstBuffer(s: string, k: nat, line: string, t: string)
    requires FirstEndAt(s, k) && line != [] && '\r' !in line && '\n' !in line
    ensures Parse(s + t) == Some(Message(Lines(s[..k]), s[k + 4..] + t))
    ensures Parse(Injected(s, k, line) + t) == Some(Message(Lines(s[..k]) + [line], s[k + 4..] + t))
  {
    PrefixEnd(s, s + t, k);
    FirstEndFound(s + t, k);
    assert (s + t)[..k] == s[..k] && (s + t)[k + 4..] == s[k + 4..] + t;
    InjectionAddsLine(s + t, k, line);
    assert Injected(s + t, k, line) == Injected(s, k, line) + t;
  }

  /** What a first call and those after it mean to send, and what they do send. */
  lemma StreamOfFirst(first: Call, more: seq<Call>, line: string, k: nat)
    requires ValidCall(first) && AllValid(more)
    requires Triggers(first) && FirstEndAt(CStr(first.mem), k) && k + 2 <= first.num
    requires first.num + |line| + 2 <= INT_MAX
    ensures AllValid([first] + more)
    ensures Plain([first] + more) == first.mem[..first.num] + Plain(more)
    ensures Stream([first] + more, line)
         == match Stream(more, line)
            case Some(rest) => Some(Injected(first.mem[..first.num], k, line) + rest)
            case None => None
  {
    var calls := [first] + more;
    assert forall i :: 0 < i < |calls| ==> calls[i] == more[i - 1];
    assert calls[0] == first && calls[1..] == more;
    FirstEndFound(CStr(first.mem), k);
  }

  /**
   * A message whose header section is in the first buffer arrives with the line added and its
   * body unchanged exactly when no later buffer triggers the injection again.
   */
  lemma FirstBufferDeliveredExactly(first: Call, more: seq<Call>, line: string, k: nat)
    requires ValidCall(first) && AllValid(more)
    requires Triggers(first) && FirstEndAt(CStr(first.mem), k) && k + 4 <= first.num
    requires first.num + |line| + 2 <= INT_MAX
    requires line != [] && '\r' !in line && '\n' !in line
    ensures AllValid([first] + more) && (Delivered([first] + more, line) <==> NoneTriggers(more))
  {
    var s := first.mem[..first.num];
    StreamOfFirst(first, more, line, k);
    StreamIsPlain(more, line);
    PrefixEnd(CStr(first.mem), s, k);
    FirstBuffer(s, k, line, Plain(more));
    if Stream(more, line).Some? {
      BodiesAgree(s, k, line, Plain(more), Stream(more, line).value);
    }
  }

  /** After the same first buffer the message is the wanted one exactly when the rest of the body is. */
  lemma BodiesAgree(s: string, k: nat, line: string, rest: string, sent: string)
    requires FirstEndAt(s, k) && line != [] && '\r' !in line && '\n' !in line
    ensures Parse(Injected(s, k, line) + sent) == Some(Message(Lines(s[..k]) + [line], s[k + 4..] + rest))
       <==> sent == rest
  {
    FirstBuffer(s, k, line, sent);
    assert (s[k + 4..] + sent)[|s[k + 4..]|..] == sent && (s[k + 4..] + rest)[|s[k + 4..]|..] == rest;
  }

  /** Texts that agree up to the empty line have it at the same place. */
  lemma PrefixEnd(a: string, b: string, k: nat)
    requires FirstEndAt(a, k) && k + 4 <= |b| && a[..k + 4] == b[..k + 4]
    ensures FirstEndAt(b, k)
  {
    assert forall i :: 0 <= i < k + 4 ==> b[i] == b[..k + 4][i] == a[i];
    forall j: nat | j < k ensures !EndAt(b, j) {
      assert !EndAt(a, j);
    }
  }

  // ----- any calls whatever -----

  /** What the injections of the calls add. */
  function Added(calls: seq<Call>, line: string): nat {
    if calls == [] then 0 else (if Triggers(calls[0]) then |line| + 2 else 0) + Added(calls[1..], line)
  }

  lemma {:induction false} StreamLength(calls: seq<Call>, line: string)
    requires AllValid(calls) && Stream(calls, line).Some?
    ensures |Stream(calls, line).value| == |Plain(calls)| + Added(calls, line)
  {
    if calls != [] {
      StreamLength(calls[1..], line);
    }
  }

  predicate OnlyTrigger(calls: seq<Call>, i: nat) {
    i < |calls| && Triggers(calls[i]) && forall j :: 0 <= j < |calls| && j != i ==> !Triggers(calls[j])
  }

  lemma {:induction false} AddedNothing(calls: seq<Call>, line: string)
    ensures Added(calls, line) == 0 <==> NoneTriggers(calls)
    ensures Added(calls, line) == 0 || Added(calls, line) >= |line| + 2
  {
    if calls != [] {
      AddedNothing(calls[1..], line);
      assert NoneTriggers(calls) <==> !Triggers(calls[0]) && NoneTriggers(calls[1..]);
    }
  }

  /** One line is added exactly when one call triggers. */
  lemma {:induction false} AddedOnce(calls: seq<Call>, line: string)
    ensures Added(calls, line) == |line| + 2 <==> exists i: nat :: OnlyTrigger(calls, i)
  {
    if calls == [] {
    } else if Triggers(calls[0]) {
      AddedNothing(calls[1..], line);
      if NoneTriggers(calls[1..]) {
        assert forall j :: 0 < j < |calls| ==> calls[j] == calls[1..][j - 1];
        assert OnlyTrigger(calls, 0);
      }
      if i: nat :| OnlyTrigger(calls, i) {
        assert i == 0;
        assert forall j :: 0 <= j < |calls[1..]| ==> calls[1..][j] == calls[j + 1];
      }
    } else {
      AddedOnce(calls[1..], line);
      if i: nat :| OnlyTrigger(calls[1..], i) {
        assert forall j :: 0 < j < |calls| ==> calls[j] == calls[1..][j - 1];
        assert OnlyTrigger(calls, i + 1);
      }
      if i: nat :| OnlyTrigger(calls, i) {
        assert i > 0 && calls[1..][i - 1] == calls[i];
        assert forall j :: 0 <= j < |calls[1..]| ==> calls[1..][j] == calls[j + 1];
        assert OnlyTrigger(calls[1..], i - 1);
      }
    }
  }

  /** Where in the text of all calls the line of call `i` goes in. */
  function InsertionPoint(calls: seq<Call>, i: nat): nat
    requires i < |calls| && Triggers(calls[i])
  {
    if i == 0 then FindEnd(CStr(calls[0].mem), 0).value + 2 else calls[0].num + InsertionPoint(calls[1..], i - 1)
  }

  /** A text with the line put in at `q`. */
  function WithLine(s: string, q: nat, line: string): string
    requires q <= |s|
  {
    s[..q] + (line + CRLF) + s[q..]
  }

  /** If one call triggers, its line is put in at that point, unless the call fails. */
  lemma {:induction false} StreamWithOne(calls: seq<Call>, line: string, i: nat)
    requires AllValid(calls) && OnlyTrigger(calls, i)
    ensures Written(calls[i], line).Sent? ==>
              InsertionPoint(calls, i) <= |Plain(calls)|
              && Stream(calls, line) == Some(WithLine(Plain(calls), InsertionPoint(calls, i), line))
    ensures !Written(calls[i], line).Sent? ==> Stream(calls, line) == None
  {
    var s, rest := calls[0].mem[..calls[0].num], calls[1..];
    assert forall j :: 0 <= j < |rest| ==> rest[j] == calls[j + 1];
    if i == 0 {
      StreamIsPlain(rest, line);
      if Written(calls[0], line).Sent? {
        WithLineInFront(s, Plain(rest), InsertionPoint(calls, 0), line);
      }
    } else {
      RestHasTrigger(calls, i);
      StreamWithOne(rest, line, i - 1);
      if Written(calls[i], line).Sent? {
        WithLineBehind(s, Plain(rest), InsertionPoint(rest, i - 1), line);
      }
    }
  }

  lemma RestHasTrigger(calls: seq<Call>, i: nat)
    requires OnlyTrigger(calls, i) && i > 0
    ensures OnlyTrigger(calls[1..], i - 1) && !Triggers(calls[0])
  {
    assert forall j :: 0 <= j < |calls| - 1 ==> calls[1..][j] == calls[j + 1];
  }

  lemma WithLineInFront(s: string, t: string, q: nat, line: string)
    requires q <= |s|
    ensures WithLine(s + t, q, line) == WithLine(s, q, line) + t
  {
    assert (s + t)[..q] == s[..q] && (s + t)[q..] == s[q..] + t;
  }

  lemma WithLineBehind(s: string, t: string, q: nat, line: string)
    requires q <= |t|
    ensures WithLine(s + t, |s| + q, line) == s + WithLine(t, q, line)
  {
    assert (s + t)[..|s| + q] == s + t[..q] && (s + t)[|s| + q..] == t[q..];
  }

  // ----- lines put in at different points -----

  /** `w` is the text of some number of copies of the line. */
  predicate Copies(w: string, l: string)
    requires l != []
  {
    w == [] || (l <= w && Copies(w[|l|..], l))
  }

  predicate IsLine(line: string) {
    line != [] && '\r' !in line && '\n' !in line
  }

  /** Text that can change places with the line is made of copies of it. */
  lemma {:induction false} CommutesExactly(w: string, line: string)
    requires IsLine(line)
    ensures (line + CRLF) + w == w + (line + CRLF) <==> Copies(w, line + CRLF)
    decreases |w|
  {
    var l := line + CRLF;
    if w == [] {
      assert l + w == l && w + l == l;
    } else if l <= w {
      var v := w[|l|..];
      assert w == l + v;
      CommutesExactly(v, line);
      Associate(l, v, l);
      assert (l + (l + v))[|l|..] == l + v && (l + (v + l))[|l|..] == v + l;
    } else if l + w == w + l {
      ShortDoesNotCommute(w, line);
    }
  }

  /** No shorter text both begins and ends the line with its line break. */
  lemma NoBorder(line: string, n: nat)
    requires IsLine(line) && 0 < n < |line + CRLF|
    ensures var l := line + CRLF;
            l[..n] != l[|l| - n..]
  {
    var l := line + CRLF;
    if n == 1 {
      assert l[..n][0] == line[0] && line[0] in line && l[|l| - n..][0] == '\n';
    } else {
      assert l[..n][n - 2] == line[n - 2] && line[n - 2] in line && l[|l| - n..][n - 2] == '\r';
    }
  }

  lemma ShortDoesNotCommute(w: string, line: string)
    requires IsLine(line) && w != [] && !(line + CRLF <= w)
    ensures (line + CRLF) + w != w + (line + CRLF)
  {
    var l, n := line + CRLF, |w|;
    if |l| <= n {
      assert (w + l)[..|l|] == w[..|l|] && (l + w)[..|l|] == l;
    } else {
      NoBorder(line, n);
      assert (w + l)[..n] == w && (l + w)[..n] == l[..n];
      assert (w + l)[|l|..] == l[|l| - n..] && (l + w)[|l|..] == w;
    }
  }

  /** Two points give the same text exactly when only copies of the line lie between them. */
  lemma SameTextExactly(s: string, q: nat, p: nat, line: string)
    requires IsLine(line) && q <= p <= |s|
    ensures WithLine(s, q, line) == WithLine(s, p, line) <==> Copies(s[q..p], line + CRLF)
  {
    var l, w := line + CRLF, s[q..p];
    CommutesExactly(w, line);
    assert s[..p] == s[..q] + w && s[q..] == w + s[p..];
    assert WithLine(s, q, line) == s[..q] + (l + w) + s[p..];
    assert WithLine(s, p, line) == s[..q] + (w + l) + s[p..];
    Middle(s[..q], l + w, w + l, s[p..]);
  }

  lemma Middle(a: string, x: string, y: string, z: string)
    requires |x| == |y|
    ensures a + x + z == a + y + z <==> x == y
  {
    assert (a + x + z)[|a|..|a| + |x|] == x && (a + y + z)[|a|..|a| + |y|] == y;
  }

  /** A point past the header section gives another text: what follows the header section starts with a line break. */
  lemma LaterPointDiffers(s: string, p: nat, q: nat, line: string)
    requires IsLine(line) && p < q <= |s| && s[p] == '\r'
    ensures WithLine(s, p, line) != WithLine(s, q, line)
  {
    assert WithLine(s, p, line)[p] == line[0] && WithLine(s, q, line)[p] == s[p];
    assert line[0] in line;
  }

  // ----- exactly when the message arrives -----

  /** Only one text is the message with the line added. */
  lemma OnlyInjected(s: string, k: nat, line: string, r: string)
    requires FirstEndAt(s, k) && IsLine(line)
    ensures Parse(s).Some?
    ensures var m := Parse(s).value;
            Parse(r) == Some(Message(m.lines + [line], m.body)) <==> r == Injected(s, k, line)
  {
    InjectionAddsLine(s, k, line);
    PrintUndoesParse(Injected(s, k, line));
    if Parse(r).Some? {
      PrintUndoesParse(r);
    }
  }

  /** The line of call `i` goes in at the end of the header section, or in front of copies of it there. */
  predicate InPlace(calls: seq<Call>, i: nat, k: nat, line: string)
    requires AllValid(calls) && i < |calls| && Triggers(calls[i]) && k + 2 <= |Plain(calls)|
  {
    var q := InsertionPoint(calls, i);
    q <= k + 2 && Copies(Plain(calls)[q..k + 2], line + CRLF)
  }

  lemma DeliveredByOne(calls: seq<Call>, line: string, k: nat, i: nat)
    requires AllValid(calls) && FirstEndAt(Plain(calls), k) && IsLine(line) && OnlyTrigger(calls, i)
    ensures Delivered(calls, line) <==> Written(calls[i], line).Sent? && InPlace(calls, i, k, line)
  {
    var s := Plain(calls);
    StreamWithOne(calls, line, i);
    if Written(calls[i], line).Sent? {
      var q := InsertionPoint(calls, i);
      OnlyInjected(s, k, line, WithLine(s, q, line));
      assert Injected(s, k, line) == WithLine(s, k + 2, line);
      if q <= k + 2 {
        SameTextExactly(s, q, k + 2, line);
      } else {
        LaterPointDiffers(s, k + 2, q, line);
      }
    }
  }

  /**
   * For any calls whose text holds a header section: the message arrives with the line added and
   * its body unchanged exactly when one call triggers, does not fail, and puts the line at the end
   * of that header section, wherever calls begin and end and whatever lies in memory after them.
   */
  lemma DeliveredExactly(calls: seq<Call>, line: string, k: nat)
    requires AllValid(calls) && FirstEndAt(Plain(calls), k) && IsLine(line)
    ensures Delivered(calls, line)
       <==> exists i: nat :: OnlyTrigger(calls, i) && Written(calls[i], line).Sent? && InPlace(calls, i, k, line)
  {
    AddedOnce(calls, line);
    if i: nat :| OnlyTrigger(calls, i) {
      DeliveredByOne(calls, line, k, i);
      assert forall j: nat :: OnlyTrigger(calls, j) ==> j == i;
    } else if Stream(calls, line).Some? {
      var s, r := Plain(calls), Stream(calls, line).value;
      StreamLength(calls, line);
      OnlyInjected(s, k, line, r);
      assert |Injected(s, k, line)| == |s| + |line| + 2;
    }
  }

  /** The line of the program is one. */
  lemma SignatureDeliveredExactly(calls: seq<Call>, k: nat)
    requires AllValid(calls) && FirstEndAt(Plain(calls), k)
    ensures var line := "X-NF-Signature: test-signature";
            (Delivered(calls, line)
             <==> exists i: nat :: OnlyTrigger(calls, i) && Written(calls[i], line).Sent? && InPlace(calls, i, k, line))
  {
    LineFits();
    DeliveredExactly(calls, LINE, k);
  }

  // ----- calls for which it fails -----

  /** A buffer of its own bytes and nothing after them. */
  function Buffer(s: string): (c: Call)
    requires |s| <= INT_MAX
    ensures ValidCall(c)
  {
    Call(s, |s|, true)
  }

  /** A header section in one call and a body with a blank line in it in the next: the body gets the line too. */
  lemma BodyWithBlankLineIsSpoilt(head: string, body: string, line: string, k: nat, at: nat)
    requires IsLine(line) && |head| + |line| + 2 <= INT_MAX && |body| <= INT_MAX && NUL !in head && NUL !in body
    requires FirstEndAt(head, k) && EndAt(body, at)
    ensures var calls := [Buffer(head), Buffer(body)];
            AllValid(calls) && FirstEndAt(Plain(calls), k) && !Delivered(calls, line)
  {
    var first, second := Buffer(head), Buffer(body);
    WholeCString(head);
    WholeCString(body);
    FirstEndFound(head, k);
    assert FindEnd(body, 0).Some?;
    assert Triggers([second][0]);
    assert head[..|head|] == head;
    FirstBufferDeliveredExactly(first, [second], line, k);
    StreamOfFirst(first, [second], line, k);
    PrefixEnd(head, head + Plain([second]), k);
    assert [first] + [second] == [first, second];
  }

  lemma BodyIsSpoilt()
    ensures var calls := [Buffer("A\r\n\r\n"), Buffer("\r\n\r\n")];
            AllValid(calls) && FirstEndAt(Plain(calls), 1) && !Delivered(calls, LINE)
  {
    LineFits();
    BodyWithBlankLineIsSpoilt("A\r\n\r\n", "\r\n\r\n", LINE, 1, 0);
  }

  lemma WholeCString(mem: string)
    requires NUL !in mem
    ensures CStr(mem) == mem
  {
    CStrUnique(mem, mem);
  }

  /** The blank line lies in memory after the two bytes to be written: the copies go out of range. */
  lemma CopyGoesOutOfRange()
    ensures var c := Call("A\r\n\r\n", 2, true);
            ValidCall(c) && Written(c, LINE) == OutOfRange
  {
    var c := Call("A\r\n\r\n", 2, true);
    WholeCString(c.mem);
    FirstEndFound(c.mem, 1);
  }

  // ----- several messages -----

  /** The calls of all messages, one after the other. */
  function Flat(messages: seq<seq<Call>>): seq<Call> {
    if messages == [] then [] else messages[0] + Flat(messages[1..])
  }

  predicate AllMessagesValid(messages: seq<seq<Call>>) {
    forall i :: 0 <= i < |messages| ==> AllValid(messages[i])
  }

  /** What the messages send, each by its own calls. */
  function StreamOfAll(messages: seq<seq<Call>>, line: string): Option<string>
    requires AllMessagesValid(messages)
  {
    if messages == [] then Some([])
    else Joint(Stream(messages[0], line), StreamOfAll(messages[1..], line))
  }

  function Joint(a: Option<string>, b: Option<string>): Option<string> {
    match (a, b)
    case (Some(x), Some(y)) => Some(x + y)
    case _ => None
  }

  lemma {:induction false} StreamJoins(a: seq<Call>, b: seq<Call>, line: string)
    requires AllValid(a) && AllValid(b)
    ensures AllValid(a + b) && Stream(a + b, line) == Joint(Stream(a, line), Stream(b, line))
  {
    if a == [] {
      assert a + b == b;
      if Stream(b, line).Some? {
        assert [] + Stream(b, line).value == Stream(b, line).value;
      }
    } else {
      StreamJoins(a[1..], b, line);
      assert (a + b)[1..] == a[1..] + b;
      match (Written(a[0], line), Stream(a[1..], line), Stream(b, line)) {
        case (Sent(x), Some(y), Some(z)) => Associate(x, y, z);
        case _ =>
      }
    }
  }

  /**
   * Messages written one after the other do not touch each other: the connection carries the text of
   * each as its own calls send it, so each arrives as `DeliveredExactly` says.
   */
  lemma {:induction false} MessagesAreIndependent(messages: seq<seq<Call>>, line: string)
    requires AllMessagesValid(messages)
    ensures AllValid(Flat(messages)) && Stream(Flat(messages), line) == StreamOfAll(messages, line)
  {
    if messages != [] {
      MessagesAreIndependent(messages[1..], line);
      StreamJoins(messages[0], Flat(messages[1..]), line);
    }
  }
}
