/**
 * The state machine as the diagram in the documentation draws it: boxes, captions and arrows.  The
 * loaded maps are proved to follow it.
 */
module StateDiagram {
  import opened Options
  import opened CStrings
  import opened StateMachine
  import opened SmMap

  // ----- the diagram -----

  /** What is written in the box of a node. */
  function Caption(n: Node): string {
    match n
    case RegReceived => "REG_RECEIVED"
    case ContextLookup => "CONTEXT_LOOKUP"
    case IdentityPending => "IDENTITY_PENDING"
    case AuthVectorPending => "AUTH_VECTOR_PENDING"
    case NasAuthenticating => "NAS_AUTHENTICATING"
    case NasSecurityPending => "NAS_SECURITY_PENDING"
    case UdmRegistering => "UDM_REGISTERING"
    case SubscriptionLoading => "SUBSCRIPTION_LOADING"
    case PolicyAssociating => "POLICY_ASSOCIATING"
    case UeContextReady => "UE_CONTEXT_READY"
    case SmContextPending => "SM_CONTEXT_PENDING"
    case InitialContextSetup => "INITIAL_CONTEXT_SETUP"
    case RegisteredConnected => "REGISTERED_CONNECTED"
    case RegRejected => "REG_REJECTED"
    case AuthFailed => "AUTH_FAILED"
    case ReplaySuspected => "REPLAY_SUSPECTED"
    case SecurityFailed => "SECURITY_FAILED"
    case SecurityPolicyViolation => "SECURITY_POLICY_VIOLATION"
    case NfTimeout => "NF_TIMEOUT"
    case SliceRejected => "SLICE_REJECTED"
    case PduSessionRejected => "PDU_SESSION_REJECTED"
    case ContextSetupFailed => "CONTEXT_SETUP_FAILED"
    case CleanupRequired => "CLEANUP_REQUIRED"
    case UeGnb => "UE/gNB"
    case Amf => "AMF"
    case Ausf => "AUSF"
    case Udm => "UDM"
    case Pcf => "PCF"
    case Smf => "SMF"
  }

  /** What is written along the arrows of a label. */
  function Inscription(l: Label): string {
    match l
    case InitialUEMessage => "InitialUEMessage"
    case ValidNAS => "valid NAS"
    case InvalidNAS => "invalid NAS"
    case NamfContextTransfer => "Namf ContextTransfer"
    case Response => "response"
    case ContextUnavailable => "context unavailable"
    case RequestIdentity => "Request identity"
    case ResponseIdentity => "Response identity"
    case IdentityAvailable => "identity available"
    case NausfAuthentication => "Nausf Authentication"
    case AuthVectorResponse => "auth vector response"
    case AusfSuccess => "AUSF success"
    case AusfReject => "AUSF reject"
    case Timeout => "timeout"
    case NASAuthentication => "NAS Authentication"
    case RESValid => "RES* valid"
    case RESInvalid => "RES* invalid"
    case ReplayAbnormalRetry => "replay/abnormal retry"
    case SecurityModeCommand => "Security Mode Command"
    case SecurityModeComplete => "Security Mode Complete"
    case IntegritySuccess => "integrity success"
    case IntegrityFail => "integrity fail"
    case NullInvalidAlgorithm => "NULL/invalid algorithm"
    case NudmUecmRegistration => "Nudm UECM Registration"
    case RegistrationResponse => "registration response"
    case Success => "success"
    case UDMReject => "UDM reject"
    case NudmSDMGet => "Nudm SDM Get"
    case SubscriptionData => "subscription data"
    case ValidSubscription => "valid subscription"
    case InvalidSNssai => "invalid S-NSSAI"
    case NpcfAMPolicyCreate => "Npcf AM Policy Create"
    case PolicyResponse => "policy response"
    case PolicySuccess => "policy success"
    case PolicyReject => "policy reject"
    case PDUSessionRequest => "PDU session request"
    case NsmfCreateUpdateSMContext => "Nsmf Create/Update SM Context"
    case SMContextResponse => "SM context response"
    case SMFSuccess => "SMF success"
    case SMFReject => "SMF reject"
    case SliceValidationFailure => "slice validation failure"
    case InitialContextSetupRequest => "InitialContextSetupRequest"
    case SetupResponse => "setup response"
    case SetupSuccess => "setup success"
    case SetupFailure => "setup failure"
    case ReleasePartialContext => "release partial context"
    case Cleanup => "cleanup"
    case RetainUEContext => "retain UE context"
    case ReleaseResources => "release resources"
  }

  /** How the box is drawn: thirteen nodes lie on the normal path, ten are failures, six are peers. */
  function Drawn(n: Node): Kind {
    match n
    case UeGnb | Amf | Ausf | Udm | Pcf | Smf => Endpoint
    case RegRejected | AuthFailed | ReplaySuspected | SecurityFailed | SecurityPolicyViolation | NfTimeout
       | SliceRejected | PduSessionRejected | ContextSetupFailed | CleanupRequired => Failure
    case _ => Normal
  }

  /** Where the arrow goes that leaves `src` with this inscription, if there is one. */
  function Arrow(src: Node, event: Label): Option<Node> {
    match src
    case RegReceived => (
      match event
      case ValidNAS => Some(ContextLookup)
      case InvalidNAS => Some(RegRejected)
      case _ => None)
    case ContextLookup => (
      match event
      case NamfContextTransfer => Some(Amf)
      case ContextUnavailable => Some(IdentityPending)
      case _ => None)
    case IdentityPending => (
      match event
      case RequestIdentity => Some(UeGnb)
      case IdentityAvailable => Some(AuthVectorPending)
      case _ => None)
    case AuthVectorPending => (
      match event
      case NausfAuthentication => Some(Ausf)
      case AusfSuccess => Some(NasAuthenticating)
      case AusfReject => Some(AuthFailed)
      case Timeout => Some(NfTimeout)
      case _ => None)
    case NasAuthenticating => (
      match event
      case NASAuthentication => Some(UeGnb)
      case RESValid => Some(NasSecurityPending)
      case RESInvalid => Some(AuthFailed)
      case ReplayAbnormalRetry => Some(ReplaySuspected)
      case _ => None)
    case NasSecurityPending => (
      match event
      case SecurityModeCommand => Some(UeGnb)
      case IntegritySuccess => Some(UdmRegistering)
      case IntegrityFail => Some(SecurityFailed)
      case NullInvalidAlgorithm => Some(SecurityPolicyViolation)
      case _ => None)
    case UdmRegistering => (
      match event
      case NudmUecmRegistration => Some(Udm)
      case Success => Some(SubscriptionLoading)
      case UDMReject => Some(RegRejected)
      case Timeout => Some(NfTimeout)
      case _ => None)
    case SubscriptionLoading => (
      match event
      case NudmSDMGet => Some(Udm)
      case ValidSubscription => Some(PolicyAssociating)
      case InvalidSNssai => Some(SliceRejected)
      case _ => None)
    case PolicyAssociating => (
      match event
      case NpcfAMPolicyCreate => Some(Pcf)
      case PolicySuccess => Some(UeContextReady)
      case PolicyReject => Some(RegRejected)
      case Timeout => Some(NfTimeout)
      case _ => None)
    case UeContextReady => (
      match event
      case PDUSessionRequest => Some(SmContextPending)
      case _ => None)
    case SmContextPending => (
      match event
      case NsmfCreateUpdateSMContext => Some(Smf)
      case SMFSuccess => Some(InitialContextSetup)
      case SMFReject => Some(PduSessionRejected)
      case SliceValidationFailure => Some(SliceRejected)
      case _ => None)
    case InitialContextSetup => (
      match event
      case InitialContextSetupRequest => Some(UeGnb)
      case SetupSuccess => Some(RegisteredConnected)
      case SetupFailure => Some(ContextSetupFailed)
      case _ => None)
    case RegRejected => (
      match event
      case Cleanup => Some(CleanupRequired)
      case _ => None)
    case AuthFailed => (
      match event
      case ReleasePartialContext => Some(CleanupRequired)
      case _ => None)
    case SecurityFailed => (
      match event
      case ReleasePartialContext => Some(CleanupRequired)
      case _ => None)
    case PduSessionRejected => (
      match event
      case RetainUEContext => Some(UeContextReady)
      case _ => None)
    case ContextSetupFailed => (
      match event
      case ReleaseResources => Some(CleanupRequired)
      case _ => None)
    case UeGnb => (
      match event
      case InitialUEMessage => Some(RegReceived)
      case ResponseIdentity => Some(IdentityPending)
      case SecurityModeComplete => Some(NasSecurityPending)
      case SetupResponse => Some(InitialContextSetup)
      case _ => None)
    case Amf => (
      match event
      case Response => Some(ContextLookup)
      case _ => None)
    case Ausf => (
      match event
      case AuthVectorResponse => Some(AuthVectorPending)
      case _ => None)
    case Udm => (
      match event
      case RegistrationResponse => Some(UdmRegistering)
      case SubscriptionData => Some(SubscriptionLoading)
      case _ => None)
    case Pcf => (
      match event
      case PolicyResponse => Some(PolicyAssociating)
      case _ => None)
    case Smf => (
      match event
      case SMContextResponse => Some(SmContextPending)
      case _ => None)
    case _ => None
  }

  // ----- the tables are those of the diagram -----

  predicate Captioned(n: Node) {
    Name(n) == Caption(n)
  }

  lemma RegReceivedCaptioned(n: Node)
    requires n.RegReceived? || n.ContextLookup? || n.IdentityPending? || n.AuthVectorPending?
          || n.NasAuthenticating? || n.NasSecurityPending? || n.UdmRegistering? || n.SubscriptionLoading?
    ensures Captioned(n)
  {
  }

  lemma PolicyAssociatingCaptioned(n: Node)
    requires n.PolicyAssociating? || n.UeContextReady? || n.SmContextPending? || n.InitialContextSetup?
          || n.RegisteredConnected? || n.RegRejected? || n.AuthFailed? || n.ReplaySuspected?
    ensures Captioned(n)
  {
  }

  lemma SecurityFailedCaptioned(n: Node)
    requires n.SecurityFailed? || n.SecurityPolicyViolation? || n.NfTimeout? || n.SliceRejected?
          || n.PduSessionRejected? || n.ContextSetupFailed? || n.CleanupRequired? || n.UeGnb?
    ensures Captioned(n)
  {
  }

  lemma AmfCaptioned(n: Node)
    requires n.Amf? || n.Ausf? || n.Udm? || n.Pcf? || n.Smf?
    ensures Captioned(n)
  {
  }

  /** Every node has the name that is in its box. */
  lemma NodesAreCaptioned(n: Node)
    ensures Captioned(n)
  {
    match n
    case RegReceived | ContextLookup | IdentityPending | AuthVectorPending
       | NasAuthenticating | NasSecurityPending | UdmRegistering | SubscriptionLoading => RegReceivedCaptioned(n);
    case PolicyAssociating | UeContextReady | SmContextPending | InitialContextSetup
       | RegisteredConnected | RegRejected | AuthFailed | ReplaySuspected => PolicyAssociatingCaptioned(n);
    case SecurityFailed | SecurityPolicyViolation | NfTimeout | SliceRejected
       | PduSessionRejected | ContextSetupFailed | CleanupRequired | UeGnb => SecurityFailedCaptioned(n);
    case _ => AmfCaptioned(n);
  }

  predicate Inscribed(l: Label) {
    Text(l) == Inscription(l)
  }

  lemma InitialUEMessageInscribed(l: Label)
    requires l.InitialUEMessage? || l.ValidNAS? || l.InvalidNAS?
          || l.NamfContextTransfer? || l.Response? || l.ContextUnavailable? || l.RequestIdentity?
    ensures Inscribed(l)
  {
  }

  lemma ResponseIdentityInscribed(l: Label)
    requires l.ResponseIdentity? || l.IdentityAvailable? || l.NausfAuthentication?
          || l.AuthVectorResponse? || l.AusfSuccess? || l.AusfReject? || l.Timeout?
    ensures Inscribed(l)
  {
  }

  lemma NASAuthenticationInscribed(l: Label)
    requires l.NASAuthentication? || l.RESValid? || l.RESInvalid?
          || l.ReplayAbnormalRetry? || l.SecurityModeCommand? || l.SecurityModeComplete? || l.IntegritySuccess?
    ensures Inscribed(l)
  {
  }

  lemma IntegrityFailInscribed(l: Label)
    requires l.IntegrityFail? || l.NullInvalidAlgorithm? || l.NudmUecmRegistration?
          || l.RegistrationResponse? || l.Success? || l.UDMReject? || l.NudmSDMGet?
    ensures Inscribed(l)
  {
  }

  lemma SubscriptionDataInscribed(l: Label)
    requires l.SubscriptionData? || l.ValidSubscription? || l.InvalidSNssai?
          || l.NpcfAMPolicyCreate? || l.PolicyResponse? || l.PolicySuccess? || l.PolicyReject?
    ensures Inscribed(l)
  {
  }

  lemma PDUSessionRequestInscribed(l: Label)
    requires l.PDUSessionRequest? || l.NsmfCreateUpdateSMContext? || l.SMContextResponse?
          || l.SMFSuccess? || l.SMFReject? || l.SliceValidationFailure? || l.InitialContextSetupRequest?
    ensures Inscribed(l)
  {
  }

  lemma SetupResponseInscribed(l: Label)
    requires l.SetupResponse? || l.SetupSuccess? || l.SetupFailure?
          || l.ReleasePartialContext? || l.Cleanup? || l.RetainUEContext? || l.ReleaseResources?
    ensures Inscribed(l)
  {
  }

  /** Every label has the text that is along its arrows. */
  lemma LabelsAreInscribed(l: Label)
    ensures Inscribed(l)
  {
    match l
    case InitialUEMessage | ValidNAS | InvalidNAS
       | NamfContextTransfer | Response | ContextUnavailable | RequestIdentity => InitialUEMessageInscribed(l);
    case ResponseIdentity | IdentityAvailable | NausfAuthentication
       | AuthVectorResponse | AusfSuccess | AusfReject | Timeout => ResponseIdentityInscribed(l);
    case NASAuthentication | RESValid | RESInvalid
       | ReplayAbnormalRetry | SecurityModeCommand | SecurityModeComplete | IntegritySuccess =>
      NASAuthenticationInscribed(l);
    case IntegrityFail | NullInvalidAlgorithm | NudmUecmRegistration
       | RegistrationResponse | Success | UDMReject | NudmSDMGet => IntegrityFailInscribed(l);
    case SubscriptionData | ValidSubscription | InvalidSNssai
       | NpcfAMPolicyCreate | PolicyResponse | PolicySuccess | PolicyReject => SubscriptionDataInscribed(l);
    case PDUSessionRequest | NsmfCreateUpdateSMContext | SMContextResponse
       | SMFSuccess | SMFReject | SliceValidationFailure | InitialContextSetupRequest => PDUSessionRequestInscribed(l);
    case _ => SetupResponseInscribed(l);
  }

  predicate Follows(src: Node, event: Label) {
    Next(src, event) == Arrow(src, event)
  }

  lemma RegReceivedFollows(src: Node, event: Label)
    requires src.RegReceived? || src.ContextLookup? || src.IdentityPending?
    ensures Follows(src, event)
  {
  }

  lemma AuthVectorPendingFollows(src: Node, event: Label)
    requires src.AuthVectorPending? || src.NasAuthenticating? || src.NasSecurityPending?
    ensures Follows(src, event)
  {
  }

  lemma UdmRegisteringFollows(src: Node, event: Label)
    requires src.UdmRegistering? || src.SubscriptionLoading? || src.PolicyAssociating?
    ensures Follows(src, event)
  {
  }

  lemma UeContextReadyFollows(src: Node, event: Label)
    requires src.UeContextReady? || src.SmContextPending? || src.InitialContextSetup?
    ensures Follows(src, event)
  {
  }

  lemma RegRejectedFollows(src: Node, event: Label)
    requires src.RegRejected? || src.AuthFailed? || src.SecurityFailed?
    ensures Follows(src, event)
  {
  }

  lemma PduSessionRejectedFollows(src: Node, event: Label)
    requires src.PduSessionRejected? || src.ContextSetupFailed? || src.UeGnb?
    ensures Follows(src, event)
  {
  }

  lemma AmfFollows(src: Node, event: Label)
    requires src.Amf? || src.Ausf? || src.Udm?
    ensures Follows(src, event)
  {
  }

  lemma PcfFollows(src: Node, event: Label)
    requires src.Pcf? || src.Smf?
    ensures Follows(src, event)
  {
  }

  /** Every transition is an arrow, and the other way round. */
  lemma TransitionsAreArrows(src: Node, event: Label)
    ensures Follows(src, event)
  {
    match src
    case RegReceived | ContextLookup | IdentityPending => RegReceivedFollows(src, event);
    case AuthVectorPending | NasAuthenticating | NasSecurityPending => AuthVectorPendingFollows(src, event);
    case UdmRegistering | SubscriptionLoading | PolicyAssociating => UdmRegisteringFollows(src, event);
    case UeContextReady | SmContextPending | InitialContextSetup => UeContextReadyFollows(src, event);
    case RegRejected | AuthFailed | SecurityFailed => RegRejectedFollows(src, event);
    case PduSessionRejected | ContextSetupFailed | UeGnb => PduSessionRejectedFollows(src, event);
    case Amf | Ausf | Udm => AmfFollows(src, event);
    case Pcf | Smf => PcfFollows(src, event);
    case _ =>
  }

  /** Over the populated map the lookup follows exactly the arrows, from caption to caption. */
  lemma LookupFollowsDiagram(edges: map<EdgeKey, NameBuf>, src: Node, event: Label)
    requires HoldsEdgeTable(edges)
    ensures FindEdge(edges, Caption(src), Inscription(event))
         == match Arrow(src, event) case Some(d) => Some(Padded(Caption(d), 32)) case None => None
  {
    NodesAreCaptioned(src);
    LabelsAreInscribed(event);
    NextIsArrow(src, event);
    TransitionLookupIsNext(edges, src, event);
  }

  lemma NextIsArrow(src: Node, event: Label)
    ensures NameOfNext(Next(src, event))
         == match Arrow(src, event) case Some(d) => Some(Padded(Caption(d), 32)) case None => None
  {
    TransitionsAreArrows(src, event);
    if Arrow(src, event).Some? {
      NodesAreCaptioned(Arrow(src, event).value);
    }
  }

  /** No other strings are found, however long. */
  lemma OnlyArrowsAreFound(edges: map<EdgeKey, NameBuf>, from: string, text: string)
    requires HoldsEdgeTable(edges) && NUL !in from && NUL !in text && FindEdge(edges, from, text).Some?
    ensures exists src, event :: Arrow(src, event).Some? && Caption(src) == from && Inscription(event) == text
  {
    var dst := CStr(FindEdge(edges, from, text).value);
    TransitionLookupExact(edges, from, text, dst);
    var i: nat :| i < EDGE_COUNT && IsEdgeRow(i, from, dst, text);
    var row := EdgeAt(i);
    RowsComplete(i);
    NodesAreCaptioned(row.src);
    LabelsAreInscribed(row.event);
    TransitionsAreArrows(row.src, row.event);
    assert Arrow(row.src, row.event).Some?;
  }

  lemma RowsAreDrawn(i: nat)
    requires i < NODE_COUNT
    ensures NodeAt(i).kind == Drawn(NodeAt(i).node)
  {
  }

  /** And a caption is known with the kind its box is drawn as. */
  lemma NodeLookupFollowsDiagram(nodes: map<NameBuf, Kind>, n: Node)
    requires HoldsNodeTable(nodes)
    ensures FindNode(nodes, Caption(n)) == Some(Drawn(n))
  {
    var i := BoxNumber(n);
    RowsAreDrawn(i);
    NodesAreCaptioned(n);
    NamesFit(n);
    NodeLookupExact(nodes, Name(n), Drawn(n));
  }

  lemma BoxNumber(n: Node) returns (i: nat)
    ensures i < NODE_COUNT && NodeAt(i).node == n
  {
    match n
    case RegReceived => i := 0;
    case ContextLookup => i := 1;
    case IdentityPending => i := 2;
    case AuthVectorPending => i := 3;
    case NasAuthenticating => i := 4;
    case NasSecurityPending => i := 5;
    case UdmRegistering => i := 6;
    case SubscriptionLoading => i := 7;
    case PolicyAssociating => i := 8;
    case UeContextReady => i := 9;
    case SmContextPending => i := 10;
    case InitialContextSetup => i := 11;
    case RegisteredConnected => i := 12;
    case RegRejected => i := 13;
    case AuthFailed => i := 14;
    case ReplaySuspected => i := 15;
    case SecurityFailed => i := 16;
    case SecurityPolicyViolation => i := 17;
    case NfTimeout => i := 18;
    case SliceRejected => i := 19;
    case PduSessionRejected => i := 20;
    case ContextSetupFailed => i := 21;
    case CleanupRequired => i := 22;
    case UeGnb => i := 23;
    case Amf => i := 24;
    case Ausf => i := 25;
    case Udm => i := 26;
    case Pcf => i := 27;
    case Smf => i := 28;
  }
}
