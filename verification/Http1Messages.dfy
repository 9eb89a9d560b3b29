/**
 * Several HTTP/1.1 messages on one connection, written in calls that may begin and end
 * anywhere: when every message arrives with the line added once, in the right place.
 */
module Http1Messages {
  import opened Options
  import opened Sequences
  import opened CStrings
  import opened Http1Inject
  import opened Http1Streams

  // ----- a text with a word put in at several places -----

  /** Places in a text of length `n`, from left to right. */
  predicate InOrder(points: seq<nat>, n: nat) {
    && (forall i :: 0 <= i < |points| ==> points[i] <= n)
    && forall i, j :: 0 <= i < j < |points| ==> points[i] <= points[j]
  }

  function Less(p: nat, d: nat): nat {
    if p < d then 0 else p - d
  }

  function Back(points: seq<nat>, d: nat): (r: seq<nat>)
    ensures |r| == |points| && forall i :: 0 <= i < |r| ==> r[i] == Less(points[i], d)
  {
    seq(|points|, i requires 0 <= i < |points| => Less(points[i], d))
  }

  function Forward(points: seq<nat>, d: nat): (r: seq<nat>)
    ensures |r| == |points| && forall i :: 0 <= i < |r| ==> r[i] == points[i] + d
  {
    seq(|points|, i requires 0 <= i < |points| => points[i] + d)
  }

  /** The text with `l` put in at each of the places, which are counted in the text itself. */
  function WithAll(s: string, points: seq<nat>, l: string): string
    decreases |s| + |points|
  {
    if points != [] && points[0] == 0 then l + WithAll(s, points[1..], l)
    else if s == [] then []
    else [s[0]] + WithAll(s[1..], Back(points, 1), l)
  }

  /** No place is in front of the first `d` characters. */
  predicate NoneBefore(points: seq<nat>, d: nat) {
    points == [] || points[0] >= d
  }

  lemma OrderKept(points: seq<nat>, n: nat, d: nat)
    requires InOrder(points, n) && d <= n
    ensures InOrder(Back(points, d), n - d)
  {
  }

  lemma OrderJoins(p: seq<nat>, n: nat, q: seq<nat>, m: nat)
    requires InOrder(p, n) && InOrder(q, m)
    ensures InOrder(p + Forward(q, n), n + m)
  {
  }

  /** `l` is put in in front. */
  lemma PutsIn(s: string, points: seq<nat>, l: string)
    requires points != [] && points[0] == 0
    ensures WithAll(s, points, l) == l + WithAll(s, points[1..], l)
  {
  }

  /** It is not. */
  lemma GoesOn(s: string, points: seq<nat>, l: string)
    requires s != [] && NoneBefore(points, 1)
    ensures WithAll(s, points, l) == [s[0]] + WithAll(s[1..], Back(points, 1), l)
  {
  }

  lemma BackTwice(points: seq<nat>, d: nat)
    requires d > 0
    ensures Back(Back(points, 1), d - 1) == Back(points, d)
  {
  }

  lemma FrontSteps(s: string, d: nat)
    requires 0 < d <= |s|
    ensures s[1..][d - 1..] == s[d..] && s[..d] == [s[0]] + s[1..][..d - 1]
  {
  }

  lemma {:induction false} FrontStays(s: string, points: seq<nat>, l: string, d: nat)
    requires InOrder(points, |s|) && NoneBefore(points, d) && d <= |s|
    ensures WithAll(s, points, l) == s[..d] + WithAll(s[d..], Back(points, d), l)
    decreases d
  {
    if d == 0 {
      assert Back(points, 0) == points && s[0..] == s;
    } else {
      var s', points' := s[1..], Back(points, 1);
      OrderKept(points, |s|, 1);
      FrontStays(s', points', l, d - 1);
      GoesOn(s, points, l);
      BackTwice(points, d);
      FrontSteps(s, d);
      Associate([s[0]], s'[..d - 1], WithAll(s[d..], Back(points, d), l));
    }
  }

  /** Texts put after each other, each with its own places. */
  lemma {:induction false} WithAllJoins(s: string, p: seq<nat>, t: string, q: seq<nat>, l: string)
    requires InOrder(p, |s|) && InOrder(q, |t|)
    ensures WithAll(s + t, p + Forward(q, |s|), l) == WithAll(s, p, l) + WithAll(t, q, l)
    decreases |s| + |p|
  {
    if !NoneBefore(p, 1) {
      WithAllJoins(s, p[1..], t, q, l);
      JoinPutsIn(s, p, t, Forward(q, |s|), l);
      Associate(l, WithAll(s, p[1..], l), WithAll(t, q, l));
    } else if s == [] {
      WithNone(s, l);
      assert p + Forward(q, 0) == q && s + t == t && WithAll(s, p, l) == [];
      assert [] + WithAll(t, q, l) == WithAll(t, q, l);
    } else {
      OrderKept(p, |s|, 1);
      WithAllJoins(s[1..], Back(p, 1), t, q, l);
      JoinGoesOn(s, p, t, q, l);
      Associate([s[0]], WithAll(s[1..], Back(p, 1), l), WithAll(t, q, l));
    }
  }

  lemma JoinPutsIn(s: string, p: seq<nat>, t: string, q: seq<nat>, l: string)
    requires p != [] && p[0] == 0
    ensures WithAll(s, p, l) == l + WithAll(s, p[1..], l)
    ensures WithAll(s + t, p + q, l) == l + WithAll(s + t, p[1..] + q, l)
  {
    PutsIn(s, p, l);
    PutsIn(s + t, p + q, l);
    assert (p + q)[1..] == p[1..] + q;
  }

  lemma JoinGoesOn(s: string, p: seq<nat>, t: string, q: seq<nat>, l: string)
    requires s != [] && NoneBefore(p, 1)
    ensures WithAll(s, p, l) == [s[0]] + WithAll(s[1..], Back(p, 1), l)
    ensures WithAll(s + t, p + Forward(q, |s|), l)
         == [s[0]] + WithAll(s[1..] + t, Back(p, 1) + Forward(q, |s[1..]|), l)
  {
    var both := p + Forward(q, |s|);
    GoesOn(s, p, l);
    GoesOn(s + t, both, l);
    BackJoins(p, q, |s|);
    assert (s + t)[1..] == s[1..] + t && (s + t)[0] == s[0];
  }

  lemma BackJoins(p: seq<nat>, q: seq<nat>, n: nat)
    requires n > 0
    ensures Back(p + Forward(q, n), 1) == Back(p, 1) + Forward(q, n - 1)
  {
  }

  lemma WithOne(s: string, q: nat, line: string)
    requires q <= |s|
    ensures WithAll(s, [q], line + CRLF) == WithLine(s, q, line)
  {
    var l := line + CRLF;
    FrontStays(s, [q], l, q);
    assert Back([q], q) == [0];
    WithNone(s[q..], l);
    Associate(s[..q], l, s[q..]);
  }

  lemma WithNone(s: string, l: string)
    ensures WithAll(s, [], l) == s
  {
    FrontStays(s, [], l, |s|);
    assert s[..|s|] == s && s[|s|..] == [] && WithAll([], Back([], |s|), l) == [];
  }

  // ----- when two lists of places give the same text -----

  /** No proper prefix of the word is its end, so copies of it never overlap. */
  predicate Unbordered(l: string) {
    l != [] && forall n :: 0 < n < |l| ==> l[..n] != l[|l| - n..]
  }

  /** No place is within a copy of `l`. */
  predicate Clean(s: string, points: seq<nat>, l: string) {
    forall i, c: nat :: 0 <= i < |points| && c < points[i] < c + |l| && c <= |s| ==> !(l <= s[c..])
  }

  predicate Between(s: string, p: nat, q: nat, l: string)
    requires p <= |s| && q <= |s| && l != []
  {
    if p <= q then Copies(s[p..q], l) else Copies(s[q..p], l)
  }

  /** As many places in both lists, and between each two nothing but copies of `l`. */
  predicate Close(s: string, p: seq<nat>, q: seq<nat>, l: string)
    requires InOrder(p, |s|) && InOrder(q, |s|) && l != []
  {
    |p| == |q| && forall i :: 0 <= i < |p| ==> Between(s, p[i], q[i], l)
  }

  lemma CleanBehind(s: string, points: seq<nat>, l: string, d: nat)
    requires Clean(s, points, l) && d <= |s|
    ensures Clean(s[d..], Back(points, d), l)
  {
    forall i, c: nat | 0 <= i < |points| && c < Back(points, d)[i] < c + |l| && c <= |s[d..]|
      ensures !(l <= s[d..][c..])
    {
      assert s[d..][c..] == s[d + c..];
      assert d + c < points[i] < d + c + |l|;
    }
  }

  predicate NoneWithin(points: seq<nat>, n: nat) {
    forall i :: 0 <= i < |points| ==> points[i] == 0 || points[i] >= n
  }

  lemma ZeroOrPast(s: string, points: seq<nat>, l: string)
    requires l <= s && Clean(s, points, l)
    ensures NoneWithin(points, |l|)
  {
    assert s[0..] == s;
  }

  /** A copy of `l` in front can be taken for one that was put in. */
  lemma {:induction false} CopyInFront(s: string, points: seq<nat>, l: string)
    requires l != [] && l <= s && InOrder(points, |s|) && NoneWithin(points, |l|)
    ensures WithAll(s, points, l) == l + WithAll(s[|l|..], Back(points, |l|), l)
    decreases |points|
  {
    if !NoneBefore(points, 1) {
      CopyInFront(s, points[1..], l);
      PutsIn(s, points, l);
      ZeroStays(s[|l|..], points, l, |l|);
    } else {
      assert s[..|l|] == l;
      FrontStays(s, points, l, |l|);
    }
  }

  lemma ZeroStays(s: string, points: seq<nat>, l: string, d: nat)
    requires points != [] && points[0] == 0
    ensures WithAll(s, Back(points, d), l) == l + WithAll(s, Back(points[1..], d), l)
  {
    PutsIn(s, Back(points, d), l);
    assert Back(points, d)[1..] == Back(points[1..], d);
  }

  lemma CopiesBehindFirst(s: string, q: nat, l: string)
    requires l != [] && l <= s && |l| <= q <= |s|
    ensures Copies(s[0..q], l) <==> Copies(s[|l|..][0..q - |l|], l)
  {
    var w := s[0..q];
    assert l <= w && w != [];
    assert w[|l|..] == s[|l|..][0..q - |l|];
  }

  lemma SliceBehind(s: string, n: nat, p: nat, q: nat)
    requires n <= p <= q <= |s|
    ensures s[n..][p - n..q - n] == s[p..q]
  {
  }

  lemma CopyBetween(s: string, p: nat, q: nat, l: string)
    requires l != [] && l <= s && p <= q <= |s| && (p == 0 || p >= |l|) && (q == 0 || q >= |l|)
    ensures Copies(s[p..q], l) <==> Copies(s[|l|..][Less(p, |l|)..Less(q, |l|)], l)
  {
    if p > 0 {
      SliceBehind(s, |l|, p, q);
    } else if q > 0 {
      CopiesBehindFirst(s, q, l);
    } else {
      assert s[0..0] == [] && s[|l|..][0..0] == [];
    }
  }

  lemma CopyKeepsBetween(s: string, p: nat, q: nat, l: string)
    requires l != [] && l <= s && p <= |s| && q <= |s| && (p == 0 || p >= |l|) && (q == 0 || q >= |l|)
    ensures Between(s, p, q, l) <==> Between(s[|l|..], Less(p, |l|), Less(q, |l|), l)
  {
    if p <= q {
      CopyBetween(s, p, q, l);
    } else {
      CopyBetween(s, q, p, l);
    }
    assert forall u: nat :: u <= |s| - |l| ==> s[|l|..][u..u] == [];
  }

  lemma CloseBehindCopy(s: string, p: seq<nat>, q: seq<nat>, l: string)
    requires l != [] && l <= s && InOrder(p, |s|) && InOrder(q, |s|) && Clean(s, p, l) && Clean(s, q, l)
    requires InOrder(Back(p, |l|), |s| - |l|) && InOrder(Back(q, |l|), |s| - |l|)
    ensures Close(s, p, q, l) <==> Close(s[|l|..], Back(p, |l|), Back(q, |l|), l)
  {
    ZeroOrPast(s, p, l);
    ZeroOrPast(s, q, l);
    if |p| == |q| {
      forall i | 0 <= i < |p|
        ensures Between(s, p[i], q[i], l) <==> Between(s[|l|..], Back(p, |l|)[i], Back(q, |l|)[i], l)
      {
        CopyKeepsBetween(s, p[i], q[i], l);
      }
    }
  }

  lemma BehindOne(s: string, p: nat, q: nat, l: string)
    requires l != [] && 1 <= p <= |s| && 1 <= q <= |s|
    ensures Between(s, p, q, l) <==> Between(s[1..], p - 1, q - 1, l)
  {
    if p <= q {
      assert s[1..][p - 1..q - 1] == s[p..q];
    } else {
      assert s[1..][q - 1..p - 1] == s[q..p];
    }
  }

  lemma CloseBehindOne(s: string, p: seq<nat>, q: seq<nat>, l: string)
    requires s != [] && l != [] && InOrder(p, |s|) && InOrder(q, |s|) && NoneBefore(p, 1) && NoneBefore(q, 1)
    ensures InOrder(Back(p, 1), |s| - 1) && InOrder(Back(q, 1), |s| - 1)
    ensures Close(s, p, q, l) <==> Close(s[1..], Back(p, 1), Back(q, 1), l)
  {
    if |p| == |q| {
      forall i | 0 <= i < |p|
        ensures Between(s, p[i], q[i], l) <==> Between(s[1..], Back(p, 1)[i], Back(q, 1)[i], l)
      {
        BehindOne(s, p[i], q[i], l);
      }
    }
  }

  lemma CloseBehindFirst(s: string, p: seq<nat>, q: seq<nat>, l: string)
    requires l != [] && InOrder(p, |s|) && InOrder(q, |s|) && p != [] && q != [] && p[0] == q[0]
    ensures Close(s, p, q, l) <==> Close(s, p[1..], q[1..], l)
  {
    if |p| == |q| && Close(s, p[1..], q[1..], l) {
      forall i | 0 <= i < |p| ensures Between(s, p[i], q[i], l) {
        if i > 0 {
          assert Between(s, p[1..][i - 1], q[1..][i - 1], l);
        }
      }
    }
    if Close(s, p, q, l) {
      forall i | 0 <= i < |p[1..]| ensures Between(s, p[1..][i], q[1..][i], l) {
        assert Between(s, p[i + 1], q[i + 1], l);
      }
    }
  }

  /** Without a place in front, the text does not start with `l` when it did not before. */
  lemma NoCopyInFront(s: string, points: seq<nat>, l: string)
    requires Unbordered(l) && !(l <= s) && InOrder(points, |s|) && NoneBefore(points, 1)
    ensures !(l <= WithAll(s, points, l))
  {
    if points == [] {
      WithNone(s, l);
    } else {
      var q, n := points[0], |l|;
      FrontStays(s, points, l, q);
      var more := WithAll(s[q..], Back(points, q), l);
      PutsIn(s[q..], Back(points, q), l);
      InsertedDoesNotComplete(s[..q], more, l);
    }
  }

  lemma InsertedDoesNotComplete(a: string, more: string, l: string)
    requires Unbordered(l) && !(l <= a) && a != [] && l <= more
    ensures !(l <= a + more)
  {
    if |a| >= |l| {
      assert (a + more)[..|l|] == a[..|l|];
    } else {
      CopyOverCopy(a, more, l);
      var n := |l| - |a|;
      assert l[..n] != l[|l| - n..];
    }
  }

  lemma CopyOverCopy(a: string, more: string, l: string)
    requires |a| < |l| && l <= more
    ensures l <= a + more ==> l[..|l| - |a|] == l[|a|..]
  {
    var w := a + more;
    assert w[|a|..|l|] == more[..|l| - |a|] == l[..|l| - |a|];
    assert l <= w ==> l[|a|..] == w[..|l|][|a|..];
  }

  /** A place in front in one list only: another text, and the lists are not close. */
  lemma FrontInOneOnly(s: string, p: seq<nat>, q: seq<nat>, l: string)
    requires Unbordered(l) && !(l <= s) && InOrder(p, |s|) && InOrder(q, |s|)
    requires p != [] && p[0] == 0 && NoneBefore(q, 1)
    ensures WithAll(s, p, l) != WithAll(s, q, l) && !Close(s, p, q, l) && !Close(s, q, p, l)
  {
    NoCopyInFront(s, q, l);
    assert l <= WithAll(s, p, l);
    if |p| == |q| {
      assert s[0..q[0]] == s[..q[0]] && !(l <= s[..q[0]]);
      assert !Between(s, p[0], q[0], l) && !Between(s, q[0], p[0], l);
    }
  }

  lemma BehindCopy(s: string, points: seq<nat>, l: string)
    requires l != [] && l <= s && InOrder(points, |s|) && Clean(s, points, l)
    ensures InOrder(Back(points, |l|), |s[|l|..]|) && Clean(s[|l|..], Back(points, |l|), l)
    ensures WithAll(s, points, l) == l + WithAll(s[|l|..], Back(points, |l|), l)
  {
    ZeroOrPast(s, points, l);
    CopyInFront(s, points, l);
    OrderKept(points, |s|, |l|);
    CleanBehind(s, points, l, |l|);
  }

  lemma BehindCharacter(s: string, points: seq<nat>, l: string)
    requires s != [] && NoneBefore(points, 1) && InOrder(points, |s|) && Clean(s, points, l)
    ensures InOrder(Back(points, 1), |s[1..]|) && Clean(s[1..], Back(points, 1), l)
    ensures WithAll(s, points, l) == [s[0]] + WithAll(s[1..], Back(points, 1), l)
  {
    OrderKept(points, |s|, 1);
    CleanBehind(s, points, l, 1);
    GoesOn(s, points, l);
  }

  /** Two lists of places give the same text exactly when they are close, if none lies within a copy. */
  lemma {:induction false} SameTextsExactly(s: string, p: seq<nat>, q: seq<nat>, l: string)
    requires Unbordered(l) && InOrder(p, |s|) && InOrder(q, |s|) && Clean(s, p, l) && Clean(s, q, l)
    ensures WithAll(s, p, l) == WithAll(s, q, l) <==> Close(s, p, q, l)
    decreases |s| + |p| + |q|
  {
    if l <= s {
      var s', p', q' := s[|l|..], Back(p, |l|), Back(q, |l|);
      BehindCopy(s, p, l);
      BehindCopy(s, q, l);
      SameTextsExactly(s', p', q', l);
      CloseBehindCopy(s, p, q, l);
      SameBehind(l, WithAll(s', p', l), WithAll(s', q', l));
    } else if !NoneBefore(p, 1) && !NoneBefore(q, 1) {
      SameTextsExactly(s, p[1..], q[1..], l);
      CloseBehindFirst(s, p, q, l);
      SameBehind(l, WithAll(s, p[1..], l), WithAll(s, q[1..], l));
    } else if !NoneBefore(p, 1) {
      FrontInOneOnly(s, p, q, l);
    } else if !NoneBefore(q, 1) {
      FrontInOneOnly(s, q, p, l);
    } else if s != [] {
      var s', p', q' := s[1..], Back(p, 1), Back(q, 1);
      BehindCharacter(s, p, l);
      BehindCharacter(s, q, l);
      SameTextsExactly(s', p', q', l);
      CloseBehindOne(s, p, q, l);
      SameBehind([s[0]], WithAll(s', p', l), WithAll(s', q', l));
    }
  }

  lemma SameBehind(a: string, x: string, y: string)
    ensures a + x == a + y <==> x == y
  {
    assert (a + x)[|a|..] == x && (a + y)[|a|..] == y;
  }

  // ----- the places of the calls -----

  /** Where the line of the call goes in, if it triggers. */
  function OwnPoint(c: Call): seq<nat> {
    if Triggers(c) then [FindEnd(CStr(c.mem), 0).value + 2] else []
  }

  /** Where in the text of all calls their lines go in. */
  function Points(calls: seq<Call>): seq<nat> {
    if calls == [] then [] else OwnPoint(calls[0]) + Forward(Points(calls[1..]), calls[0].num)
  }

  predicate AllSent(calls: seq<Call>, line: string)
    requires AllValid(calls)
  {
    forall i :: 0 <= i < |calls| ==> Written(calls[i], line).Sent?
  }

  /** Places in the text, each after a line break. */
  predicate AfterBreaks(s: string, points: seq<nat>) {
    InOrder(points, |s|) && forall i :: 0 <= i < |points| ==> 0 < points[i] && s[points[i] - 1] == '\n'
  }

  lemma CallInserts(c: Call, line: string)
    requires ValidCall(c) && Written(c, line).Sent?
    ensures var s := c.mem[..c.num];
            && AfterBreaks(s, OwnPoint(c))
            && Written(c, line) == Sent(WithAll(s, OwnPoint(c), line + CRLF))
  {
    var s := c.mem[..c.num];
    if Triggers(c) {
      var k := FindEnd(CStr(c.mem), 0).value;
      assert s[k + 1] == c.mem[k + 1] == CStr(c.mem)[k + 1];
      WithOne(s, k + 2, line);
    } else {
      WithNone(s, line + CRLF);
    }
  }

  lemma BreaksJoin(s: string, p: seq<nat>, t: string, q: seq<nat>, l: string)
    requires AfterBreaks(s, p) && AfterBreaks(t, q)
    ensures AfterBreaks(s + t, p + Forward(q, |s|))
    ensures WithAll(s + t, p + Forward(q, |s|), l) == WithAll(s, p, l) + WithAll(t, q, l)
  {
    OrderJoins(p, |s|, q, |t|);
    WithAllJoins(s, p, t, q, l);
  }

  /** The calls put their lines in at these places, unless one of them fails. */
  lemma {:induction false} StreamOfCalls(calls: seq<Call>, line: string)
    requires AllValid(calls)
    ensures AllSent(calls, line) ==>
              && AfterBreaks(Plain(calls), Points(calls))
              && Stream(calls, line) == Some(WithAll(Plain(calls), Points(calls), line + CRLF))
    ensures !AllSent(calls, line) ==> Stream(calls, line) == None
  {
    if calls != [] {
      var c, more := calls[0], calls[1..];
      var s := c.mem[..c.num];
      StreamOfCalls(more, line);
      assert AllSent(calls, line) <==> Written(c, line).Sent? && AllSent(more, line);
      if AllSent(calls, line) {
        CallInserts(c, line);
        BreaksJoin(s, OwnPoint(c), Plain(more), Points(more), line + CRLF);
      }
    }
  }

  /** The line with its break: nothing in it but its end follows a line break. */
  lemma LineIsUnbordered(line: string)
    requires IsLine(line)
    ensures Unbordered(line + CRLF)
  {
    forall n | 0 < n < |line + CRLF|
      ensures (line + CRLF)[..n] != (line + CRLF)[|line + CRLF| - n..]
    {
      NoBorder(line, n);
    }
  }

  lemma BreaksAreClean(s: string, points: seq<nat>, line: string)
    requires IsLine(line) && AfterBreaks(s, points)
    ensures Clean(s, points, line + CRLF)
  {
    var l := line + CRLF;
    forall i, c: nat | 0 <= i < |points| && c < points[i] < c + |l| && c <= |s|
      ensures !(l <= s[c..])
    {
      var at := points[i] - 1 - c;
      assert s[c..][at] == '\n';
      assert at < |line| ==> line[at] in line;
      assert l[at] != '\n';
    }
  }

  // ----- messages -----

  /** A message: its text, and where the empty line that ends its header section starts. */
  datatype Framed = Framed(text: string, k: nat)

  predicate AllFramed(messages: seq<Framed>) {
    forall i :: 0 <= i < |messages| ==> FirstEndAt(messages[i].text, messages[i].k)
  }

  /** The messages one after the other, with the start of the next one. */
  function Texts(messages: seq<Framed>, rest: string): string {
    if messages == [] then rest else messages[0].text + Texts(messages[1..], rest)
  }

  /** The same with the line in every message. */
  function Wanted(messages: seq<Framed>, rest: string, line: string): string
    requires AllFramed(messages)
  {
    if messages == [] then rest
    else Injected(messages[0].text, messages[0].k, line) + Wanted(messages[1..], rest, line)
  }

  /** Where the header sections end. */
  function Ends(messages: seq<Framed>): (r: seq<nat>)
    ensures |r| == |messages|
  {
    if messages == [] then [] else [messages[0].k + 2] + Forward(Ends(messages[1..]), |messages[0].text|)
  }

  lemma MessageInserts(m: Framed, line: string)
    requires FirstEndAt(m.text, m.k)
    ensures AfterBreaks(m.text, [m.k + 2])
    ensures Injected(m.text, m.k, line) == WithAll(m.text, [m.k + 2], line + CRLF)
  {
    WithOne(m.text, m.k + 2, line);
  }

  lemma {:induction false} WantedInserts(messages: seq<Framed>, rest: string, line: string)
    requires AllFramed(messages)
    ensures var s := Texts(messages, rest);
            && AfterBreaks(s, Ends(messages))
            && Wanted(messages, rest, line) == WithAll(s, Ends(messages), line + CRLF)
  {
    if messages == [] {
      WithNone(rest, line + CRLF);
    } else {
      var m, more := messages[0], messages[1..];
      WantedInserts(more, rest, line);
      MessageInserts(m, line);
      BreaksJoin(m.text, [m.k + 2], Texts(more, rest), Ends(more), line + CRLF);
    }
  }

  /**
   * However the text of several messages is cut into calls: every message arrives with the line
   * added, its body unchanged, exactly when no call fails, as many calls trigger as there are
   * messages, and each puts the line at the end of its header section, or among copies of it there.
   */
  lemma MessagesDeliveredExactly(calls: seq<Call>, messages: seq<Framed>, rest: string, line: string)
    requires AllValid(calls) && AllFramed(messages) && Plain(calls) == Texts(messages, rest) && IsLine(line)
    ensures InOrder(Ends(messages), |Plain(calls)|)
    ensures AllSent(calls, line) ==> InOrder(Points(calls), |Plain(calls)|)
    ensures Stream(calls, line) == Some(Wanted(messages, rest, line))
       <==> AllSent(calls, line) && Close(Plain(calls), Points(calls), Ends(messages), line + CRLF)
  {
    var s, l := Plain(calls), line + CRLF;
    StreamOfCalls(calls, line);
    WantedInserts(messages, rest, line);
    if AllSent(calls, line) {
      LineIsUnbordered(line);
      BreaksAreClean(s, Points(calls), line);
      BreaksAreClean(s, Ends(messages), line);
      SameTextsExactly(s, Points(calls), Ends(messages), l);
    }
  }

  lemma {:induction false} OnePointACall(calls: seq<Call>)
    ensures |Points(calls)| <= |calls|
  {
    if calls != [] {
      OnePointACall(calls[1..]);
    }
  }

  /** Two messages written in one call, or any number in fewer calls, do not all get their line. */
  lemma FewerCallsThanMessages(calls: seq<Call>, messages: seq<Framed>, rest: string, line: string)
    requires AllValid(calls) && AllFramed(messages) && Plain(calls) == Texts(messages, rest) && IsLine(line)
    requires |calls| < |messages|
    ensures Stream(calls, line) != Some(Wanted(messages, rest, line))
  {
    MessagesDeliveredExactly(calls, messages, rest, line);
    OnePointACall(calls);
  }
}
