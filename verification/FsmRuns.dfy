/**
 * Whole runs of the state machine over arbitrary event sequences.  An event with
 * no edge from the current state is flagged and leaves the state as it is.
 */
module FsmRuns {
  import opened Options
  import opened StateMachine

  function Advance(s: Node, event: Label): Node {
    match Next(s, event)
    case Some(d) => d
    case None => s
  }

  /** The state after all events are taken in order. */
  function Fold<S, E>(step: (S, E) -> S, s: S, events: seq<E>): S {
    if events == [] then s else step(Fold(step, s, events[..|events| - 1]), events[|events| - 1])
  }

  lemma {:induction false} FoldSplits<S, E>(step: (S, E) -> S, s: S, a: seq<E>, b: seq<E>)
    ensures Fold(step, s, a + b) == Fold(step, Fold(step, s, a), b)
  {
    if b == [] {
      assert a + b == a;
    } else {
      var n := |b| - 1;
      assert (a + b)[..|a| + n] == a + b[..n];
      FoldSplits(step, s, a, b[..n]);
    }
  }

  function Track(s: Node, events: seq<Label>): Node {
    Fold(Advance, s, events)
  }

  /** The event at position `i` of the run has an edge from the state it meets. */
  predicate Accepted(s: Node, events: seq<Label>, i: nat)
    requires i < |events|
  {
    Next(Track(s, events[..i]), events[i]).Some?
  }

  /** The states visited: the start, then the target of every accepted event. */
  function Path(s: Node, events: seq<Label>): (path: seq<Node>)
    ensures |path| > 0 && path[|path| - 1] == Track(s, events)
  {
    if events == [] then
      [s]
    else
      var before := events[..|events| - 1];
      match Next(Track(s, before), events[|events| - 1])
      case Some(d) => Path(s, before) + [d]
      case None => Path(s, before)
  }

  // ----- registration goes through every stage -----

  const STAGES: seq<Node> := [
    ContextLookup, IdentityPending, AuthVectorPending, NasAuthenticating, NasSecurityPending, UdmRegistering,
    SubscriptionLoading, PolicyAssociating, UeContextReady, SmContextPending, InitialContextSetup
  ]

  /** `xs` can be obtained from `ys` by deleting elements. */
  predicate Subsequence<T(==)>(xs: seq<T>, ys: seq<T>) {
    if xs == [] then true
    else if ys == [] then false
    else
      || (xs[|xs| - 1] == ys[|ys| - 1] && Subsequence(xs[..|xs| - 1], ys[..|ys| - 1]))
      || Subsequence(xs, ys[..|ys| - 1])
  }

  lemma {:induction false} SubsequenceShrinks<T>(xs: seq<T>, ys: seq<T>, k: nat)
    requires Subsequence(xs, ys) && k <= |xs|
    ensures Subsequence(xs[..k], ys)
    decreases |xs| - k, |ys|
  {
    if k == |xs| {
      assert xs[..k] == xs;
    } else if ys != [] && xs[|xs| - 1] == ys[|ys| - 1] && Subsequence(xs[..|xs| - 1], ys[..|ys| - 1]) {
      var init := xs[..|xs| - 1];
      SubsequenceShrinks(init, ys[..|ys| - 1], k);
      assert init[..k] == xs[..k];
    } else {
      SubsequenceShrinks(xs, ys[..|ys| - 1], k);
    }
  }

  /** The part of the path from its last visit to UE/gNB on. */
  function SinceDeparture(path: seq<Node>): seq<Node> {
    if path == [] then []
    else if path[|path| - 1] == UeGnb then [UeGnb]
    else SinceDeparture(path[..|path| - 1]) + [path[|path| - 1]]
  }

  /** The event of the last departure from UE/gNB in a run that starts there. */
  function LastDeparture(events: seq<Label>): Option<Label> {
    if events == [] then None
    else
      var before, event := events[..|events| - 1], events[|events| - 1];
      if Track(UeGnb, before) == UeGnb && Next(UeGnb, event).Some? then Some(event) else LastDeparture(before)
  }

  /** Every accepted departure from UE/gNB is an InitialUEMessage, the only label the categoriser yields. */
  ghost predicate DepartsByInitialMessage(events: seq<Label>) {
    forall i :: 0 <= i < |events| && Track(UeGnb, events[..i]) == UeGnb && Accepted(UeGnb, events, i) ==>
      events[i] == InitialUEMessage
  }

  /** How many stages have certainly been passed in a state. */
  function Level(n: Node): (k: nat)
    ensures k <= |STAGES|
  {
    match n
    case ContextLookup | Amf => 1
    case IdentityPending => 2
    case AuthVectorPending | Ausf => 3
    case NasAuthenticating => 4
    case NasSecurityPending => 5
    case UdmRegistering | Udm => 6
    case SubscriptionLoading => 7
    case PolicyAssociating | Pcf => 8
    case UeContextReady => 9
    case SmContextPending | Smf | PduSessionRejected => 10
    case InitialContextSetup | RegisteredConnected => 11
    case _ => 0
  }

  predicate IsStage(n: Node) {
    match n
    case ContextLookup | IdentityPending | AuthVectorPending | NasAuthenticating | NasSecurityPending | UdmRegistering
       | SubscriptionLoading | PolicyAssociating | UeContextReady | SmContextPending | InitialContextSetup => true
    case _ => false
  }

  lemma StagesInOrder(n: Node)
    requires IsStage(n)
    ensures Level(n) > 0 && STAGES[Level(n) - 1] == n
  {
  }

  ghost predicate Climbs(s: Node, d: Node) {
    Level(d) <= Level(s) || (Level(d) == Level(s) + 1 && IsStage(d))
  }

  /** The states that only an InitialUEMessage leads to, directly or not, before identification. */
  predicate IsEarly(n: Node) {
    n == RegReceived || n == ContextLookup || n == Amf
  }

  /** What the runs below need of one row of the table. */
  ghost predicate WellDirected(e: EdgeDef) {
    && (e.src != UeGnb || e.event == InitialUEMessage ==> Climbs(e.src, e.dst))
    && (IsEarly(e.dst) ==> IsEarly(e.src) || (e.src == UeGnb && e.event == InitialUEMessage))
    && (NodeKind(e.src) == Failure ==>
          e.src != CleanupRequired && e.dst == if e.src == PduSessionRejected then UeContextReady else CleanupRequired)
  }

  lemma ContextEdgesDirected(i: nat)
    requires i < 14
    ensures WellDirected(EdgeAt(i))
  {
  }

  lemma SecurityEdgesDirected(i: nat)
    requires 14 <= i < 28
    ensures WellDirected(EdgeAt(i))
  {
  }

  lemma PolicyEdgesDirected(i: nat)
    requires 28 <= i < 40
    ensures WellDirected(EdgeAt(i))
  {
  }

  lemma SetupEdgesDirected(i: nat)
    requires 40 <= i < EDGE_COUNT
    ensures WellDirected(EdgeAt(i))
  {
  }

  lemma EdgesDirected(s: Node, event: Label)
    requires Next(s, event).Some?
    ensures WellDirected(EdgeDef(s, Next(s, event).value, event))
  {
    var i := Row(s, event).value;
    RowSound(s, event);
    if i < 14 {
      ContextEdgesDirected(i);
    } else if i < 28 {
      SecurityEdgesDirected(i);
    } else if i < 40 {
      PolicyEdgesDirected(i);
    } else {
      SetupEdgesDirected(i);
    }
    assert EdgeAt(i) == EdgeDef(s, Next(s, event).value, event);
  }

  /** One edge raises the level by at most one, and only by entering the next stage. */
  lemma EdgesClimbOneStage(s: Node, event: Label)
    requires Next(s, event).Some? && (s == UeGnb ==> event == InitialUEMessage)
    ensures var d := Next(s, event).value;
            Level(d) <= Level(s) || (Level(d) == Level(s) + 1 && d == STAGES[Level(s)])
  {
    var d := Next(s, event).value;
    EdgesDirected(s, event);
    if IsStage(d) {
      StagesInOrder(d);
    }
  }

  lemma {:induction false} StagesPassed(events: seq<Label>)
    requires Track(UeGnb, events) == UeGnb || LastDeparture(events) == Some(InitialUEMessage)
    ensures Subsequence(STAGES[..Level(Track(UeGnb, events))], SinceDeparture(Path(UeGnb, events)))
  {
    if events != [] {
      var before, event := events[..|events| - 1], events[|events| - 1];
      var s := Track(UeGnb, before);
      if Next(s, event).Some? {
        assert Path(UeGnb, events) == Path(UeGnb, before) + [Next(s, event).value];
        if Next(s, event).value == UeGnb {
          assert STAGES[..0] == [];
        } else {
          StagesPassed(before);
          StepClimbs(Path(UeGnb, before), s, event);
        }
      } else {
        StagesPassed(before);
      }
    }
  }

  lemma SubsequenceExtends<T>(xs: seq<T>, ys: seq<T>, d: T)
    requires Subsequence(xs, ys)
    ensures Subsequence(xs, ys + [d])
    ensures Subsequence(xs + [d], ys + [d])
  {
    assert (ys + [d])[..|ys|] == ys;
    assert (xs + [d])[..|xs|] == xs;
  }

  lemma StepClimbs(path: seq<Node>, s: Node, event: Label)
    requires Next(s, event).Some? && (s == UeGnb ==> event == InitialUEMessage)
    requires Subsequence(STAGES[..Level(s)], SinceDeparture(path))
    ensures Subsequence(STAGES[..Level(Next(s, event).value)], SinceDeparture(path + [Next(s, event).value]))
  {
    EdgesClimbOneStage(s, event);
    NodeEntered(path, Level(s), Next(s, event).value);
  }

  lemma NodeEntered(path: seq<Node>, k: nat, d: Node)
    requires k <= |STAGES| && Subsequence(STAGES[..k], SinceDeparture(path))
    requires Level(d) <= k || (Level(d) == k + 1 && d == STAGES[k])
    ensures Subsequence(STAGES[..Level(d)], SinceDeparture(path + [d]))
  {
    assert (path + [d])[..|path|] == path;
    if d != UeGnb {
      StageEntered(STAGES, SinceDeparture(path), k, Level(d), d);
    }
  }

  lemma StageEntered(stages: seq<Node>, since: seq<Node>, k: nat, j: nat, d: Node)
    requires k <= |stages| && j <= |stages| && Subsequence(stages[..k], since)
    requires j <= k || (j == k + 1 && d == stages[k])
    ensures Subsequence(stages[..j], since + [d])
  {
    SubsequenceExtends(stages[..k], since, d);
    if j <= k {
      SubsequenceShrinks(stages[..k], since + [d], j);
      assert stages[..k][..j] == stages[..j];
    } else {
      assert stages[..k] + [d] == stages[..j];
    }
  }

  ghost predicate NoneEarly(since: seq<Node>) {
    forall n :: n in since ==> !IsEarly(n)
  }

  lemma StaysLate(path: seq<Node>, s: Node, d: Node)
    requires path != [] && path[|path| - 1] == s && NoneEarly(SinceDeparture(path))
    requires IsEarly(d) ==> IsEarly(s)
    ensures NoneEarly(SinceDeparture(path + [d]))
  {
    SinceEndsWith(path);
    assert (path + [d])[..|path|] == path;
  }

  /** After another departure those states are not visited again before the next one. */
  lemma {:induction false} EarlyStatesSkipped(events: seq<Label>)
    requires LastDeparture(events) != Some(InitialUEMessage)
    ensures NoneEarly(SinceDeparture(Path(UeGnb, events)))
  {
    if events != [] {
      var before, event := events[..|events| - 1], events[|events| - 1];
      var s := Track(UeGnb, before);
      if s != UeGnb {
        EarlyStatesSkipped(before);
      } else {
        SinceEndsWith(Path(UeGnb, before));
      }
      if Next(s, event).Some? {
        LateStep(Path(UeGnb, before), s, event);
        assert Path(UeGnb, events) == Path(UeGnb, before) + [Next(s, event).value];
      }
    }
  }

  lemma LateStep(path: seq<Node>, s: Node, event: Label)
    requires Next(s, event).Some? && (s == UeGnb ==> event != InitialUEMessage)
    requires path != [] && path[|path| - 1] == s && NoneEarly(SinceDeparture(path))
    ensures NoneEarly(SinceDeparture(path + [Next(s, event).value]))
  {
    EdgesDirected(s, event);
    StaysLate(path, s, Next(s, event).value);
  }

  lemma SinceEndsWith(path: seq<Node>)
    requires path != []
    ensures path[|path| - 1] in SinceDeparture(path)
    ensures path[|path| - 1] == UeGnb ==> SinceDeparture(path) == [UeGnb]
  {
  }

  lemma {:induction false} SubsequenceElements<T>(xs: seq<T>, ys: seq<T>)
    requires Subsequence(xs, ys)
    ensures forall x :: x in xs ==> x in ys
  {
    if xs != [] {
      var init := ys[..|ys| - 1];
      if xs[|xs| - 1] == ys[|ys| - 1] && Subsequence(xs[..|xs| - 1], init) {
        SubsequenceElements(xs[..|xs| - 1], init);
        assert xs == xs[..|xs| - 1] + [xs[|xs| - 1]];
      } else {
        SubsequenceElements(xs, init);
      }
    }
  }

  /**
   * A run from UE/gNB that ends in REGISTERED_CONNECTED has visited all eleven stages in
   * order since its last departure exactly when that departure was by InitialUEMessage,
   * despite the UDM shortcut and the detours through peers.
   */
  lemma StagesPassedExactly(events: seq<Label>)
    requires Track(UeGnb, events) == RegisteredConnected
    ensures Subsequence(STAGES, SinceDeparture(Path(UeGnb, events))) <==>
            LastDeparture(events) == Some(InitialUEMessage)
  {
    if LastDeparture(events) == Some(InitialUEMessage) {
      StagesPassed(events);
      assert STAGES[..|STAGES|] == STAGES;
    } else {
      EarlyStatesSkipped(events);
      assert STAGES[0] == ContextLookup && ContextLookup in STAGES;
      if Subsequence(STAGES, SinceDeparture(Path(UeGnb, events))) {
        SubsequenceElements(STAGES, SinceDeparture(Path(UeGnb, events)));
      }
    }
  }

  lemma {:induction false} LastOfMany(events: seq<Label>)
    requires DepartsByInitialMessage(events)
    ensures LastDeparture(events) == None || LastDeparture(events) == Some(InitialUEMessage)
    ensures LastDeparture(events) == None ==> Track(UeGnb, events) == UeGnb
  {
    if events != [] {
      var n := |events| - 1;
      forall i | 0 <= i < n
        ensures events[..n][..i] == events[..i]
      {
      }
      assert Accepted(UeGnb, events, n) <==> Next(Track(UeGnb, events[..n]), events[n]).Some?;
      LastOfMany(events[..n]);
    }
  }

  /** So every registration passes all stages when UE/gNB is only ever left by InitialUEMessage. */
  lemma RegistrationPassesEveryStage(events: seq<Label>)
    requires DepartsByInitialMessage(events)
    requires Track(UeGnb, events) == RegisteredConnected
    ensures Subsequence(STAGES, SinceDeparture(Path(UeGnb, events)))
  {
    LastOfMany(events);
    StagesPassedExactly(events);
  }

  lemma OneMoreEvent(events: seq<Label>, event: Label)
    ensures Track(UeGnb, events + [event]) == Advance(Track(UeGnb, events), event)
    ensures LastDeparture(events + [event])
         == if Track(UeGnb, events) == UeGnb && Next(UeGnb, event).Some? then Some(event) else LastDeparture(events)
  {
    var more := events + [event];
    assert more[..|more| - 1] == events;
  }

  lemma ShortcutEdges()
    ensures Next(UeGnb, SetupResponse) == Some(InitialContextSetup)
    ensures Next(InitialContextSetup, SetupSuccess) == Some(RegisteredConnected)
  {
  }

  /** Two events are enough to connect a UE through one stage only. */
  lemma OtherDeparturesSkipStages()
    ensures var events := [SetupResponse, SetupSuccess];
            && Track(UeGnb, events) == RegisteredConnected
            && LastDeparture(events) == Some(SetupResponse)
            && !Subsequence(STAGES, SinceDeparture(Path(UeGnb, events)))
  {
    ShortcutEdges();
    OneMoreEvent([], SetupResponse);
    OneMoreEvent([SetupResponse], SetupSuccess);
    assert [] + [SetupResponse] == [SetupResponse] && [SetupResponse] + [SetupSuccess] == [SetupResponse, SetupSuccess];
    StagesPassedExactly([SetupResponse, SetupSuccess]);
  }

  // ----- failure is absorbing -----

  function NodeKind(n: Node): Kind {
    match n
    case RegRejected | AuthFailed | ReplaySuspected | SecurityFailed | SecurityPolicyViolation
       | NfTimeout | SliceRejected | PduSessionRejected | ContextSetupFailed | CleanupRequired => Failure
    case UeGnb | Amf | Ausf | Udm | Pcf | Smf => Endpoint
    case _ => Normal
  }

  /** The kinds are those of the table. */
  lemma NodeKindIsTabled(i: nat)
    requires i < NODE_COUNT
    ensures NodeKind(NodeAt(i).node) == NodeAt(i).kind
  {
  }

  /** Number of accepted events; no edge is a loop, so each changes the state. */
  function Changes(s: Node, events: seq<Label>): nat {
    if events == [] then 0
    else
      var n := |events| - 1;
      Changes(s, events[..n]) + if Accepted(s, events, n) then 1 else 0
  }

  lemma {:induction false} FailureIsKept(s: Node, events: seq<Label>)
    requires NodeKind(s) == Failure && s != PduSessionRejected
    ensures NodeKind(Track(s, events)) == Failure && Track(s, events) != PduSessionRejected
    ensures Changes(s, events) <= 1
    ensures Track(s, events) == if Changes(s, events) == 0 then s else CleanupRequired
  {
    if events != [] {
      var n := |events| - 1;
      FailureIsKept(s, events[..n]);
      var now := Track(s, events[..n]);
      if Next(now, events[n]).Some? {
        EdgesDirected(now, events[n]);
      }
    }
  }

  /**
   * Exactly the failure states other than PDU_SESSION_REJECTED are never left
   * for good: every run from them stays in a failure state, and changes at most once.
   */
  lemma FailureIsAbsorbing(s: Node)
    requires NodeKind(s) == Failure
    ensures (forall events :: StaysFailed(s, events)) <==> s != PduSessionRejected
  {
    if s != PduSessionRejected {
      forall events
        ensures StaysFailed(s, events)
      {
        FailureIsKept(s, events);
      }
    } else {
      var events := [RetainUEContext];
      assert events[..0] == [];
      assert Track(s, events) == UeContextReady;
      assert !StaysFailed(s, events);
    }
  }

  ghost predicate StaysFailed(s: Node, events: seq<Label>) {
    NodeKind(Track(s, events)) == Failure && Changes(s, events) <= 1
  }

  /** No event is accepted in this state. */
  predicate Terminal(n: Node) {
    n in {RegisteredConnected, ReplaySuspected, SecurityPolicyViolation, NfTimeout, SliceRejected, CleanupRequired}
  }

  lemma TerminalHasNoEdges(n: Node)
    ensures Terminal(n) <==> forall event :: Next(n, event).None?
  {
    if !Terminal(n) {
      SomeEdgeIsRow(n);
      assert Next(n, SomeEdge(n)).Some?;
    }
  }

  lemma SomeEdgeIsRow(n: Node)
    requires !Terminal(n)
    ensures Next(n, SomeEdge(n)).Some?
  {
  }

  /** An event accepted in a state that is not terminal. */
  function SomeEdge(n: Node): Label {
    match n
    case RegReceived => ValidNAS
    case ContextLookup => NamfContextTransfer
    case IdentityPending => RequestIdentity
    case AuthVectorPending => Timeout
    case NasAuthenticating => NASAuthentication
    case NasSecurityPending => IntegrityFail
    case UdmRegistering => Timeout
    case SubscriptionLoading => NudmSDMGet
    case PolicyAssociating => Timeout
    case UeContextReady => PDUSessionRequest
    case SmContextPending => SMFReject
    case InitialContextSetup => SetupFailure
    case RegRejected => Cleanup
    case AuthFailed | SecurityFailed => ReleasePartialContext
    case PduSessionRejected => RetainUEContext
    case ContextSetupFailed => ReleaseResources
    case UeGnb => SetupResponse
    case Amf => Response
    case Ausf => AuthVectorResponse
    case Udm => SubscriptionData
    case Pcf => PolicyResponse
    case Smf => SMContextResponse
    case _ => Timeout
  }

  lemma NothingAccepted(s: Node, event: Label)
    requires Terminal(s)
    ensures Next(s, event).None? && Advance(s, event) == s
  {
    TerminalHasNoEdges(s);
  }

  /** From a terminal state every later event is flagged and changes nothing. */
  lemma {:induction false} TerminalIsFinal(s: Node, events: seq<Label>)
    requires Terminal(s)
    ensures Track(s, events) == s
    ensures forall i :: 0 <= i < |events| ==> !Accepted(s, events, i)
  {
    if events != [] {
      var n := |events| - 1;
      TerminalIsFinal(s, events[..n]);
      NothingAccepted(s, events[n]);
      forall i | 0 <= i < n
        ensures !Accepted(s, events, i)
      {
        assert events[..n][..i] == events[..i];
        assert !Accepted(s, events[..n], i);
      }
    }
  }

  /** In any run from any state, "replay/abnormal retry" is accepted at most once. */
  lemma ReplayAcceptedOnce(s: Node, events: seq<Label>, i: nat, j: nat)
    requires i < j < |events|
    requires events[i] == events[j] == ReplayAbnormalRetry
    requires Accepted(s, events, i)
    ensures !Accepted(s, events, j)
  {
    var now := Track(s, events[..i]);
    assert Next(now, ReplayAbnormalRetry) == Some(ReplaySuspected);
    assert events[..i + 1][..i] == events[..i];
    assert Track(s, events[..i + 1]) == ReplaySuspected;
    assert events[..j] == events[..i + 1] + events[i + 1..j];
    FoldSplits(Advance, s, events[..i + 1], events[i + 1..j]);
    TerminalIsFinal(ReplaySuspected, events[i + 1..j]);
    TerminalHasNoEdges(ReplaySuspected);
  }
}
