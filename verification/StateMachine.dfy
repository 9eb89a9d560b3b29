/**
 * The threat-aware registration state machine of the AMF: its 29 nodes, its
 * event labels, and the tables that userspace loads into the two hash maps.
 */
module StateMachine {
  import opened Options

  datatype Kind = Normal | Failure | Endpoint

  datatype Node =
    | RegReceived | ContextLookup | IdentityPending | AuthVectorPending | NasAuthenticating
    | NasSecurityPending | UdmRegistering | SubscriptionLoading | PolicyAssociating
    | UeContextReady | SmContextPending | InitialContextSetup | RegisteredConnected | RegRejected
    | AuthFailed | ReplaySuspected | SecurityFailed | SecurityPolicyViolation | NfTimeout
    | SliceRejected | PduSessionRejected | ContextSetupFailed | CleanupRequired | UeGnb | Amf
    | Ausf | Udm | Pcf | Smf

  datatype Label =
    | InitialUEMessage | ValidNAS | InvalidNAS | NamfContextTransfer | Response
    | ContextUnavailable | RequestIdentity | ResponseIdentity | IdentityAvailable
    | NausfAuthentication | AuthVectorResponse | AusfSuccess | AusfReject | Timeout
    | NASAuthentication | RESValid | RESInvalid | ReplayAbnormalRetry | SecurityModeCommand
    | SecurityModeComplete | IntegritySuccess | IntegrityFail | NullInvalidAlgorithm
    | NudmUecmRegistration | RegistrationResponse | Success | UDMReject | NudmSDMGet
    | SubscriptionData | ValidSubscription | InvalidSNssai | NpcfAMPolicyCreate | PolicyResponse
    | PolicySuccess | PolicyReject | PDUSessionRequest | NsmfCreateUpdateSMContext
    | SMContextResponse | SMFSuccess | SMFReject | SliceValidationFailure
    | InitialContextSetupRequest | SetupResponse | SetupSuccess | SetupFailure
    | ReleasePartialContext | Cleanup | RetainUEContext | ReleaseResources

  /** The string the source stores for a node. */
  function Name(n: Node): string {
    match n
    case RegReceived => "REG_RECEIVED"
    case ContextLookup => "CONTEXT_LOOKUP"
    case IdentityPending => "IDENTITY_PENDING"
    case AuthVectorPending => "AUTH_VECTOR_PENDING"
    case NasAuthenticating => "NAS_AUTHENTICATING"
    case NasSecurityPending => "NAS_SECURITY_PENDING"
    case UdmRegistering => "UDM_REGISTERING"
    case SubscriptionLoading => "SUBSCRIPTION_LOADING"
    case PolicyAssociating => "POLICY_ASSOCIATING"
    case UeContextReady => "UE_CONTEXT_READY"
    case SmContextPending => "SM_CONTEXT_PENDING"
    case InitialContextSetup => "INITIAL_CONTEXT_SETUP"
    case RegisteredConnected => "REGISTERED_CONNECTED"
    case RegRejected => "REG_REJECTED"
    case AuthFailed => "AUTH_FAILED"
    case ReplaySuspected => "REPLAY_SUSPECTED"
    case SecurityFailed => "SECURITY_FAILED"
    case SecurityPolicyViolation => "SECURITY_POLICY_VIOLATION"
    case NfTimeout => "NF_TIMEOUT"
    case SliceRejected => "SLICE_REJECTED"
    case PduSessionRejected => "PDU_SESSION_REJECTED"
    case ContextSetupFailed => "CONTEXT_SETUP_FAILED"
    case CleanupRequired => "CLEANUP_REQUIRED"
    case UeGnb => "UE/gNB"
    case Amf => "AMF"
    case Ausf => "AUSF"
    case Udm => "UDM"
    case Pcf => "PCF"
    case Smf => "SMF"
  }

  /** The string the source stores for an event label. */
  function Text(l: Label): string {
    match l
    case InitialUEMessage => "InitialUEMessage"
    case ValidNAS => "valid NAS"
    case InvalidNAS => "invalid NAS"
    case NamfContextTransfer => "Namf ContextTransfer"
    case Response => "response"
    case ContextUnavailable => "context unavailable"
    case RequestIdentity => "Request identity"
    case ResponseIdentity => "Response identity"
    case IdentityAvailable => "identity available"
    case NausfAuthentication => "Nausf Authentication"
    case AuthVectorResponse => "auth vector response"
    case AusfSuccess => "AUSF success"
    case AusfReject => "AUSF reject"
    case Timeout => "timeout"
    case NASAuthentication => "NAS Authentication"
    case RESValid => "RES* valid"
    case RESInvalid => "RES* invalid"
    case ReplayAbnormalRetry => "replay/abnormal retry"
    case SecurityModeCommand => "Security Mode Command"
    case SecurityModeComplete => "Security Mode Complete"
    case IntegritySuccess => "integrity success"
    case IntegrityFail => "integrity fail"
    case NullInvalidAlgorithm => "NULL/invalid algorithm"
    case NudmUecmRegistration => "Nudm UECM Registration"
    case RegistrationResponse => "registration response"
    case Success => "success"
    case UDMReject => "UDM reject"
    case NudmSDMGet => "Nudm SDM Get"
    case SubscriptionData => "subscription data"
    case ValidSubscription => "valid subscription"
    case InvalidSNssai => "invalid S-NSSAI"
    case NpcfAMPolicyCreate => "Npcf AM Policy Create"
    case PolicyResponse => "policy response"
    case PolicySuccess => "policy success"
    case PolicyReject => "policy reject"
    case PDUSessionRequest => "PDU session request"
    case NsmfCreateUpdateSMContext => "Nsmf Create/Update SM Context"
    case SMContextResponse => "SM context response"
    case SMFSuccess => "SMF success"
    case SMFReject => "SMF reject"
    case SliceValidationFailure => "slice validation failure"
    case InitialContextSetupRequest => "InitialContextSetupRequest"
    case SetupResponse => "setup response"
    case SetupSuccess => "setup success"
    case SetupFailure => "setup failure"
    case ReleasePartialContext => "release partial context"
    case Cleanup => "cleanup"
    case RetainUEContext => "retain UE context"
    case ReleaseResources => "release resources"
  }

  datatype NodeDef = NodeDef(node: Node, kind: Kind)

  const NODE_COUNT := 29

  /** Row `i` of the table of nodes; there are NODE_COUNT rows. */
  function NodeAt(i: nat): NodeDef {
    match i
    case 0 => NodeDef(RegReceived, Normal)
    case 1 => NodeDef(ContextLookup, Normal)
    case 2 => NodeDef(IdentityPending, Normal)
    case 3 => NodeDef(AuthVectorPending, Normal)
    case 4 => NodeDef(NasAuthenticating, Normal)
    case 5 => NodeDef(NasSecurityPending, Normal)
    case 6 => NodeDef(UdmRegistering, Normal)
    case 7 => NodeDef(SubscriptionLoading, Normal)
    case 8 => NodeDef(PolicyAssociating, Normal)
    case 9 => NodeDef(UeContextReady, Normal)
    case 10 => NodeDef(SmContextPending, Normal)
    case 11 => NodeDef(InitialContextSetup, Normal)
    case 12 => NodeDef(RegisteredConnected, Normal)
    case 13 => NodeDef(RegRejected, Failure)
    case 14 => NodeDef(AuthFailed, Failure)
    case 15 => NodeDef(ReplaySuspected, Failure)
    case 16 => NodeDef(SecurityFailed, Failure)
    case 17 => NodeDef(SecurityPolicyViolation, Failure)
    case 18 => NodeDef(NfTimeout, Failure)
    case 19 => NodeDef(SliceRejected, Failure)
    case 20 => NodeDef(PduSessionRejected, Failure)
    case 21 => NodeDef(ContextSetupFailed, Failure)
    case 22 => NodeDef(CleanupRequired, Failure)
    case 23 => NodeDef(UeGnb, Endpoint)
    case 24 => NodeDef(Amf, Endpoint)
    case 25 => NodeDef(Ausf, Endpoint)
    case 26 => NodeDef(Udm, Endpoint)
    case 27 => NodeDef(Pcf, Endpoint)
    case _ => NodeDef(Smf, Endpoint)
  }

  datatype EdgeDef = EdgeDef(src: Node, dst: Node, event: Label)

  const EDGE_COUNT := 52

  function ContextEdge(i: nat): EdgeDef {
    match i
    case 0 => EdgeDef(UeGnb, RegReceived, InitialUEMessage)
    case 1 => EdgeDef(RegReceived, ContextLookup, ValidNAS)
    case 2 => EdgeDef(RegReceived, RegRejected, InvalidNAS)
    case 3 => EdgeDef(ContextLookup, Amf, NamfContextTransfer)
    case 4 => EdgeDef(Amf, ContextLookup, Response)
    case 5 => EdgeDef(ContextLookup, IdentityPending, ContextUnavailable)
    case 6 => EdgeDef(IdentityPending, UeGnb, RequestIdentity)
    case 7 => EdgeDef(UeGnb, IdentityPending, ResponseIdentity)
    case 8 => EdgeDef(IdentityPending, AuthVectorPending, IdentityAvailable)
    case 9 => EdgeDef(AuthVectorPending, Ausf, NausfAuthentication)
    case 10 => EdgeDef(Ausf, AuthVectorPending, AuthVectorResponse)
    case 11 => EdgeDef(AuthVectorPending, NasAuthenticating, AusfSuccess)
    case 12 => EdgeDef(AuthVectorPending, AuthFailed, AusfReject)
    case _ => EdgeDef(AuthVectorPending, NfTimeout, Timeout)
  }

  function SecurityEdge(i: nat): EdgeDef {
    match i
    case 14 => EdgeDef(NasAuthenticating, UeGnb, NASAuthentication)
    case 15 => EdgeDef(NasAuthenticating, NasSecurityPending, RESValid)
    case 16 => EdgeDef(NasAuthenticating, AuthFailed, RESInvalid)
    case 17 => EdgeDef(NasAuthenticating, ReplaySuspected, ReplayAbnormalRetry)
    case 18 => EdgeDef(NasSecurityPending, UeGnb, SecurityModeCommand)
    case 19 => EdgeDef(UeGnb, NasSecurityPending, SecurityModeComplete)
    case 20 => EdgeDef(NasSecurityPending, UdmRegistering, IntegritySuccess)
    case 21 => EdgeDef(NasSecurityPending, SecurityFailed, IntegrityFail)
    case 22 => EdgeDef(NasSecurityPending, SecurityPolicyViolation, NullInvalidAlgorithm)
    case 23 => EdgeDef(UdmRegistering, Udm, NudmUecmRegistration)
    case 24 => EdgeDef(Udm, UdmRegistering, RegistrationResponse)
    case 25 => EdgeDef(UdmRegistering, SubscriptionLoading, Success)
    case 26 => EdgeDef(UdmRegistering, RegRejected, UDMReject)
    case _ => EdgeDef(UdmRegistering, NfTimeout, Timeout)
  }

  function PolicyEdge(i: nat): EdgeDef {
    match i
    case 28 => EdgeDef(SubscriptionLoading, Udm, NudmSDMGet)
    case 29 => EdgeDef(Udm, SubscriptionLoading, SubscriptionData)
    case 30 => EdgeDef(SubscriptionLoading, PolicyAssociating, ValidSubscription)
    case 31 => EdgeDef(SubscriptionLoading, SliceRejected, InvalidSNssai)
    case 32 => EdgeDef(PolicyAssociating, Pcf, NpcfAMPolicyCreate)
    case 33 => EdgeDef(Pcf, PolicyAssociating, PolicyResponse)
    case 34 => EdgeDef(PolicyAssociating, UeContextReady, PolicySuccess)
    case 35 => EdgeDef(PolicyAssociating, RegRejected, PolicyReject)
    case 36 => EdgeDef(PolicyAssociating, NfTimeout, Timeout)
    case 37 => EdgeDef(UeContextReady, SmContextPending, PDUSessionRequest)
    case 38 => EdgeDef(SmContextPending, Smf, NsmfCreateUpdateSMContext)
    case _ => EdgeDef(Smf, SmContextPending, SMContextResponse)
  }

  function SetupEdge(i: nat): EdgeDef {
    match i
    case 40 => EdgeDef(SmContextPending, InitialContextSetup, SMFSuccess)
    case 41 => EdgeDef(SmContextPending, PduSessionRejected, SMFReject)
    case 42 => EdgeDef(SmContextPending, SliceRejected, SliceValidationFailure)
    case 43 => EdgeDef(InitialContextSetup, UeGnb, InitialContextSetupRequest)
    case 44 => EdgeDef(UeGnb, InitialContextSetup, SetupResponse)
    case 45 => EdgeDef(InitialContextSetup, RegisteredConnected, SetupSuccess)
    case 46 => EdgeDef(InitialContextSetup, ContextSetupFailed, SetupFailure)
    case 47 => EdgeDef(AuthFailed, CleanupRequired, ReleasePartialContext)
    case 48 => EdgeDef(SecurityFailed, CleanupRequired, ReleasePartialContext)
    case 49 => EdgeDef(RegRejected, CleanupRequired, Cleanup)
    case 50 => EdgeDef(PduSessionRejected, UeContextReady, RetainUEContext)
    case _ => EdgeDef(ContextSetupFailed, CleanupRequired, ReleaseResources)
  }

  /** Row `i` of the table of edges; there are EDGE_COUNT rows. */
  function EdgeAt(i: nat): EdgeDef {
    if i < 14 then ContextEdge(i)
    else if i < 28 then SecurityEdge(i)
    else if i < 40 then PolicyEdge(i)
    else SetupEdge(i)
  }

  /** The number of the row that leaves `src` under `event`, if there is one. */
  function Row(src: Node, event: Label): Option<nat> {
    match src
    case RegReceived => (
      match event
      case ValidNAS => Some(1)
      case InvalidNAS => Some(2)
      case _ => None)
    case ContextLookup => (
      match event
      case NamfContextTransfer => Some(3)
      case ContextUnavailable => Some(5)
      case _ => None)
    case IdentityPending => (
      match event
      case RequestIdentity => Some(6)
      case IdentityAvailable => Some(8)
      case _ => None)
    case AuthVectorPending => (
      match event
      case NausfAuthentication => Some(9)
      case AusfSuccess => Some(11)
      case AusfReject => Some(12)
      case Timeout => Some(13)
      case _ => None)
    case NasAuthenticating => (
      match event
      case NASAuthentication => Some(14)
      case RESValid => Some(15)
      case RESInvalid => Some(16)
      case ReplayAbnormalRetry => Some(17)
      case _ => None)
    case NasSecurityPending => (
      match event
      case SecurityModeCommand => Some(18)
      case IntegritySuccess => Some(20)
      case IntegrityFail => Some(21)
      case NullInvalidAlgorithm => Some(22)
      case _ => None)
    case UdmRegistering => (
      match event
      case NudmUecmRegistration => Some(23)
      case Success => Some(25)
      case UDMReject => Some(26)
      case Timeout => Some(27)
      case _ => None)
    case SubscriptionLoading => (
      match event
      case NudmSDMGet => Some(28)
      case ValidSubscription => Some(30)
      case InvalidSNssai => Some(31)
      case _ => None)
    case PolicyAssociating => (
      match event
      case NpcfAMPolicyCreate => Some(32)
      case PolicySuccess => Some(34)
      case PolicyReject => Some(35)
      case Timeout => Some(36)
      case _ => None)
    case UeContextReady => (
      match event
      case PDUSessionRequest => Some(37)
      case _ => None)
    case SmContextPending => (
      match event
      case NsmfCreateUpdateSMContext => Some(38)
      case SMFSuccess => Some(40)
      case SMFReject => Some(41)
      case SliceValidationFailure => Some(42)
      case _ => None)
    case InitialContextSetup => (
      match event
      case InitialContextSetupRequest => Some(43)
      case SetupSuccess => Some(45)
      case SetupFailure => Some(46)
      case _ => None)
    case RegRejected => (
      match event
      case Cleanup => Some(49)
      case _ => None)
    case AuthFailed => (
      match event
      case ReleasePartialContext => Some(47)
      case _ => None)
    case SecurityFailed => (
      match event
      case ReleasePartialContext => Some(48)
      case _ => None)
    case PduSessionRejected => (
      match event
      case RetainUEContext => Some(50)
      case _ => None)
    case ContextSetupFailed => (
      match event
      case ReleaseResources => Some(51)
      case _ => None)
    case UeGnb => (
      match event
      case InitialUEMessage => Some(0)
      case ResponseIdentity => Some(7)
      case SecurityModeComplete => Some(19)
      case SetupResponse => Some(44)
      case _ => None)
    case Amf => (
      match event
      case Response => Some(4)
      case _ => None)
    case Ausf => (
      match event
      case AuthVectorResponse => Some(10)
      case _ => None)
    case Udm => (
      match event
      case RegistrationResponse => Some(24)
      case SubscriptionData => Some(29)
      case _ => None)
    case Pcf => (
      match event
      case PolicyResponse => Some(33)
      case _ => None)
    case Smf => (
      match event
      case SMContextResponse => Some(39)
      case _ => None)
    case _ => None
  }

  /** The partial transition function: from `src`, event `event` leads to the target of its row. */
  function Next(src: Node, event: Label): Option<Node> {
    match Row(src, event)
    case Some(i) => Some(EdgeAt(i).dst)
    case None => None
  }

  // ----- all names fit, and all differ -----

  /** The node with a given name, told by its length and some of its characters. */
  function NodeNamed(s: string): Node
    requires |s| >= 3
  {
    match |s|
    case 3 => if s[0] == 'A' then Amf else if s[0] == 'U' then Udm else if s[0] == 'P' then Pcf else Smf
    case 4 => Ausf
    case 6 => UeGnb
    case 10 => NfTimeout
    case 11 => AuthFailed
    case 12 => if s[6] == 'C' then RegReceived else RegRejected
    case 14 => if s[0] == 'C' then ContextLookup else SliceRejected
    case 15 => if s[0] == 'U' then UdmRegistering else SecurityFailed
    case 16 =>
      if s[0] == 'I' then IdentityPending
      else if s[0] == 'U' then UeContextReady
      else if s[0] == 'R' then ReplaySuspected
      else CleanupRequired
    case 18 => if s[0] == 'N' then NasAuthenticating else if s[0] == 'P' then PolicyAssociating else SmContextPending
    case 19 => AuthVectorPending
    case 20 =>
      if s[0] == 'N' then NasSecurityPending
      else if s[0] == 'S' then SubscriptionLoading
      else if s[0] == 'R' then RegisteredConnected
      else if s[0] == 'P' then PduSessionRejected
      else ContextSetupFailed
    case 21 => InitialContextSetup
    case _ => SecurityPolicyViolation
  }

  /** The label with a given text, told likewise. */
  function LabelReading(s: string): Label
    requires |s| >= 7
  {
    match |s|
    case 7 => if s[0] == 't' then Timeout else if s[0] == 's' then Success else Cleanup
    case 8 => Response
    case 9 => ValidNAS
    case 10 => if s[0] == 'R' then RESValid else if s[0] == 'U' then UDMReject else SMFReject
    case 11 => if s[0] == 'i' then InvalidNAS else if s[0] == 'A' then AusfReject else SMFSuccess
    case 12 => if s[0] == 'A' then AusfSuccess else if s[0] == 'R' then RESInvalid else NudmSDMGet
    case 13 => if s[6] == ' ' then PolicyReject else if s[6] == 's' then SetupSuccess else SetupFailure
    case 14 => if s[0] == 'i' then IntegrityFail else if s[0] == 'p' then PolicySuccess else SetupResponse
    case 15 => if s[0] == 'i' then InvalidSNssai else PolicyResponse
    case 16 => if s[0] == 'I' then InitialUEMessage else RequestIdentity
    case 17 =>
      if s[4] == 'o' then ResponseIdentity
      else if s[4] == 'g' then IntegritySuccess
      else if s[4] == 'c' then SubscriptionData
      else if s[4] == 'i' then RetainUEContext
      else ReleaseResources
    case 18 => if s[0] == 'i' then IdentityAvailable else if s[0] == 'N' then NASAuthentication else ValidSubscription
    case 19 =>
      if s[0] == 'c' then ContextUnavailable
      else if s[0] == 'P' then PDUSessionRequest
      else SMContextResponse
    case 20 =>
      if s[2] == 'm' then NamfContextTransfer
      else if s[2] == 'u' then NausfAuthentication
      else AuthVectorResponse
    case 21 =>
      if s[3] == 'l' then ReplayAbnormalRetry
      else if s[3] == 'u' then SecurityModeCommand
      else if s[3] == 'i' then RegistrationResponse
      else NpcfAMPolicyCreate
    case 22 =>
      if s[1] == 'e' then SecurityModeComplete
      else if s[1] == 'U' then NullInvalidAlgorithm
      else NudmUecmRegistration
    case 23 => ReleasePartialContext
    case 24 => SliceValidationFailure
    case 26 => InitialContextSetupRequest
    case _ => NsmfCreateUpdateSMContext
  }

  /** A C string that fits a 32-byte field and is the name of this node alone. */
  ghost predicate Names(s: string, n: Node) {
    3 <= |s| < 31 && '\0' !in s && NodeNamed(s) == n
  }

  /** A C string that fits a 48-byte field and is the text of this label alone. */
  ghost predicate Reads(s: string, l: Label) {
    7 <= |s| < 47 && '\0' !in s && LabelReading(s) == l
  }

  ghost predicate NameFits(n: Node) {
    Names(Name(n), n)
  }

  lemma ArrivalNames(n: Node)
    requires n.RegReceived? || n.ContextLookup? || n.IdentityPending?
    ensures NameFits(n)
  {
    match n
    case RegReceived => assert Names("REG_RECEIVED", n);
    case ContextLookup => assert Names("CONTEXT_LOOKUP", n);
    case IdentityPending => assert Names("IDENTITY_PENDING", n);
  }

  lemma AuthenticationNames(n: Node)
    requires n.AuthVectorPending? || n.NasAuthenticating? || n.NasSecurityPending?
    ensures NameFits(n)
  {
    match n
    case AuthVectorPending => assert Names("AUTH_VECTOR_PENDING", n);
    case NasAuthenticating => assert Names("NAS_AUTHENTICATING", n);
    case NasSecurityPending => assert Names("NAS_SECURITY_PENDING", n);
  }

  lemma SubscriptionNames(n: Node)
    requires n.UdmRegistering? || n.SubscriptionLoading? || n.PolicyAssociating?
    ensures NameFits(n)
  {
    match n
    case UdmRegistering => assert Names("UDM_REGISTERING", n);
    case SubscriptionLoading => assert Names("SUBSCRIPTION_LOADING", n);
    case PolicyAssociating => assert Names("POLICY_ASSOCIATING", n);
  }

  lemma SessionNames(n: Node)
    requires n.UeContextReady? || n.SmContextPending?
    ensures NameFits(n)
  {
    match n
    case UeContextReady => assert Names("UE_CONTEXT_READY", n);
    case SmContextPending => assert Names("SM_CONTEXT_PENDING", n);
  }

  lemma ConnectionNames(n: Node)
    requires n.InitialContextSetup? || n.RegisteredConnected?
    ensures NameFits(n)
  {
    match n
    case InitialContextSetup => assert Names("INITIAL_CONTEXT_SETUP", n);
    case RegisteredConnected => assert Names("REGISTERED_CONNECTED", n);
  }

  lemma RejectionNames(n: Node)
    requires n.RegRejected? || n.AuthFailed? || n.ReplaySuspected?
    ensures NameFits(n)
  {
    match n
    case RegRejected => assert Names("REG_REJECTED", n);
    case AuthFailed => assert Names("AUTH_FAILED", n);
    case ReplaySuspected => assert Names("REPLAY_SUSPECTED", n);
  }

  lemma SecurityFailureNames(n: Node)
    requires n.SecurityFailed? || n.SecurityPolicyViolation?
    ensures NameFits(n)
  {
    match n
    case SecurityFailed => assert Names("SECURITY_FAILED", n);
    case SecurityPolicyViolation => assert Names("SECURITY_POLICY_VIOLATION", n);
  }

  lemma TimeoutNames(n: Node)
    requires n.NfTimeout? || n.SliceRejected?
    ensures NameFits(n)
  {
    match n
    case NfTimeout => assert Names("NF_TIMEOUT", n);
    case SliceRejected => assert Names("SLICE_REJECTED", n);
  }

  lemma SetupFailureNames(n: Node)
    requires n.PduSessionRejected? || n.ContextSetupFailed? || n.CleanupRequired?
    ensures NameFits(n)
  {
    match n
    case PduSessionRejected => assert Names("PDU_SESSION_REJECTED", n);
    case ContextSetupFailed => assert Names("CONTEXT_SETUP_FAILED", n);
    case CleanupRequired => assert Names("CLEANUP_REQUIRED", n);
  }

  lemma AccessNames(n: Node)
    requires n.UeGnb? || n.Amf? || n.Ausf?
    ensures NameFits(n)
  {
    match n
    case UeGnb => assert Names("UE/gNB", n);
    case Amf => assert Names("AMF", n);
    case Ausf => assert Names("AUSF", n);
  }

  lemma NfNames(n: Node)
    requires n.Udm? || n.Pcf? || n.Smf?
    ensures NameFits(n)
  {
    match n
    case Udm => assert Names("UDM", n);
    case Pcf => assert Names("PCF", n);
    case Smf => assert Names("SMF", n);
  }

  /** Every name fits, and names its node. */
  lemma NamesFit(n: Node)
    ensures NameFits(n)
  {
    match n
    case RegReceived | ContextLookup | IdentityPending => ArrivalNames(n);
    case AuthVectorPending | NasAuthenticating | NasSecurityPending => AuthenticationNames(n);
    case UdmRegistering | SubscriptionLoading | PolicyAssociating => SubscriptionNames(n);
    case UeContextReady | SmContextPending => SessionNames(n);
    case InitialContextSetup | RegisteredConnected => ConnectionNames(n);
    case RegRejected | AuthFailed | ReplaySuspected => RejectionNames(n);
    case SecurityFailed | SecurityPolicyViolation => SecurityFailureNames(n);
    case NfTimeout | SliceRejected => TimeoutNames(n);
    case PduSessionRejected | ContextSetupFailed | CleanupRequired => SetupFailureNames(n);
    case UeGnb | Amf | Ausf => AccessNames(n);
    case _ => NfNames(n);
  }

  ghost predicate TextFits(l: Label) {
    Reads(Text(l), l)
  }

  lemma ArrivalTexts(l: Label)
    requires l.InitialUEMessage? || l.ValidNAS? || l.InvalidNAS?
    ensures TextFits(l)
  {
    match l
    case InitialUEMessage => assert Reads("InitialUEMessage", l);
    case ValidNAS => assert Reads("valid NAS", l);
    case InvalidNAS => assert Reads("invalid NAS", l);
  }

  lemma TransferTexts(l: Label)
    requires l.NamfContextTransfer? || l.Response? || l.ContextUnavailable?
    ensures TextFits(l)
  {
    match l
    case NamfContextTransfer => assert Reads("Namf ContextTransfer", l);
    case Response => assert Reads("response", l);
    case ContextUnavailable => assert Reads("context unavailable", l);
  }

  lemma IdentityTexts(l: Label)
    requires l.RequestIdentity? || l.ResponseIdentity? || l.IdentityAvailable?
    ensures TextFits(l)
  {
    match l
    case RequestIdentity => assert Reads("Request identity", l);
    case ResponseIdentity => assert Reads("Response identity", l);
    case IdentityAvailable => assert Reads("identity available", l);
  }

  lemma VectorTexts(l: Label)
    requires l.NausfAuthentication? || l.AuthVectorResponse?
    ensures TextFits(l)
  {
    match l
    case NausfAuthentication => assert Reads("Nausf Authentication", l);
    case AuthVectorResponse => assert Reads("auth vector response", l);
  }

  lemma AusfTexts(l: Label)
    requires l.AusfSuccess? || l.AusfReject? || l.Timeout?
    ensures TextFits(l)
  {
    match l
    case AusfSuccess => assert Reads("AUSF success", l);
    case AusfReject => assert Reads("AUSF reject", l);
    case Timeout => assert Reads("timeout", l);
  }

  lemma NasTexts(l: Label)
    requires l.NASAuthentication? || l.RESValid?
    ensures TextFits(l)
  {
    match l
    case NASAuthentication => assert Reads("NAS Authentication", l);
    case RESValid => assert Reads("RES* valid", l);
  }

  lemma ReplayTexts(l: Label)
    requires l.RESInvalid? || l.ReplayAbnormalRetry?
    ensures TextFits(l)
  {
    match l
    case RESInvalid => assert Reads("RES* invalid", l);
    case ReplayAbnormalRetry => assert Reads("replay/abnormal retry", l);
  }

  lemma SecurityModeTexts(l: Label)
    requires l.SecurityModeCommand? || l.SecurityModeComplete?
    ensures TextFits(l)
  {
    match l
    case SecurityModeCommand => assert Reads("Security Mode Command", l);
    case SecurityModeComplete => assert Reads("Security Mode Complete", l);
  }

  lemma IntegrityTexts(l: Label)
    requires l.IntegritySuccess? || l.IntegrityFail?
    ensures TextFits(l)
  {
    match l
    case IntegritySuccess => assert Reads("integrity success", l);
    case IntegrityFail => assert Reads("integrity fail", l);
  }

  lemma UecmTexts(l: Label)
    requires l.NullInvalidAlgorithm? || l.NudmUecmRegistration?
    ensures TextFits(l)
  {
    match l
    case NullInvalidAlgorithm => assert Reads("NULL/invalid algorithm", l);
    case NudmUecmRegistration => assert Reads("Nudm UECM Registration", l);
  }

  lemma UdmTexts(l: Label)
    requires l.RegistrationResponse? || l.Success? || l.UDMReject?
    ensures TextFits(l)
  {
    match l
    case RegistrationResponse => assert Reads("registration response", l);
    case Success => assert Reads("success", l);
    case UDMReject => assert Reads("UDM reject", l);
  }

  lemma SdmTexts(l: Label)
    requires l.NudmSDMGet? || l.SubscriptionData?
    ensures TextFits(l)
  {
    match l
    case NudmSDMGet => assert Reads("Nudm SDM Get", l);
    case SubscriptionData => assert Reads("subscription data", l);
  }

  lemma SubscriptionTexts(l: Label)
    requires l.ValidSubscription? || l.InvalidSNssai?
    ensures TextFits(l)
  {
    match l
    case ValidSubscription => assert Reads("valid subscription", l);
    case InvalidSNssai => assert Reads("invalid S-NSSAI", l);
  }

  lemma PolicyTexts(l: Label)
    requires l.NpcfAMPolicyCreate? || l.PolicyResponse?
    ensures TextFits(l)
  {
    match l
    case NpcfAMPolicyCreate => assert Reads("Npcf AM Policy Create", l);
    case PolicyResponse => assert Reads("policy response", l);
  }

  lemma PolicyOutcomeTexts(l: Label)
    requires l.PolicySuccess? || l.PolicyReject?
    ensures TextFits(l)
  {
    match l
    case PolicySuccess => assert Reads("policy success", l);
    case PolicyReject => assert Reads("policy reject", l);
  }

  lemma SessionTexts(l: Label)
    requires l.PDUSessionRequest? || l.NsmfCreateUpdateSMContext?
    ensures TextFits(l)
  {
    match l
    case PDUSessionRequest => assert Reads("PDU session request", l);
    case NsmfCreateUpdateSMContext => assert Reads("Nsmf Create/Update SM Context", l);
  }

  lemma SmfTexts(l: Label)
    requires l.SMContextResponse? || l.SMFSuccess? || l.SMFReject?
    ensures TextFits(l)
  {
    match l
    case SMContextResponse => assert Reads("SM context response", l);
    case SMFSuccess => assert Reads("SMF success", l);
    case SMFReject => assert Reads("SMF reject", l);
  }

  lemma SliceTexts(l: Label)
    requires l.SliceValidationFailure?
    ensures TextFits(l)
  {
    assert Reads("slice validation failure", l);
  }

  lemma SetupRequestTexts(l: Label)
    requires l.InitialContextSetupRequest? || l.SetupResponse?
    ensures TextFits(l)
  {
    match l
    case InitialContextSetupRequest => assert Reads("InitialContextSetupRequest", l);
    case SetupResponse => assert Reads("setup response", l);
  }

  lemma SetupOutcomeTexts(l: Label)
    requires l.SetupSuccess? || l.SetupFailure?
    ensures TextFits(l)
  {
    match l
    case SetupSuccess => assert Reads("setup success", l);
    case SetupFailure => assert Reads("setup failure", l);
  }

  lemma CleanupTexts(l: Label)
    requires l.ReleasePartialContext? || l.Cleanup?
    ensures TextFits(l)
  {
    match l
    case ReleasePartialContext => assert Reads("release partial context", l);
    case Cleanup => assert Reads("cleanup", l);
  }

  lemma ReleaseTexts(l: Label)
    requires l.RetainUEContext? || l.ReleaseResources?
    ensures TextFits(l)
  {
    match l
    case RetainUEContext => assert Reads("retain UE context", l);
    case ReleaseResources => assert Reads("release resources", l);
  }

  /** Every text fits, and reads as its label. */
  lemma TextsFit(l: Label)
    ensures TextFits(l)
  {
    match l
    case InitialUEMessage | ValidNAS | InvalidNAS => ArrivalTexts(l);
    case NamfContextTransfer | Response | ContextUnavailable => TransferTexts(l);
    case RequestIdentity | ResponseIdentity | IdentityAvailable => IdentityTexts(l);
    case NausfAuthentication | AuthVectorResponse => VectorTexts(l);
    case AusfSuccess | AusfReject | Timeout => AusfTexts(l);
    case NASAuthentication | RESValid => NasTexts(l);
    case RESInvalid | ReplayAbnormalRetry => ReplayTexts(l);
    case SecurityModeCommand | SecurityModeComplete => SecurityModeTexts(l);
    case IntegritySuccess | IntegrityFail => IntegrityTexts(l);
    case NullInvalidAlgorithm | NudmUecmRegistration => UecmTexts(l);
    case RegistrationResponse | Success | UDMReject => UdmTexts(l);
    case NudmSDMGet | SubscriptionData => SdmTexts(l);
    case ValidSubscription | InvalidSNssai => SubscriptionTexts(l);
    case NpcfAMPolicyCreate | PolicyResponse => PolicyTexts(l);
    case PolicySuccess | PolicyReject => PolicyOutcomeTexts(l);
    case PDUSessionRequest | NsmfCreateUpdateSMContext => SessionTexts(l);
    case SMContextResponse | SMFSuccess | SMFReject => SmfTexts(l);
    case SliceValidationFailure => SliceTexts(l);
    case InitialContextSetupRequest | SetupResponse => SetupRequestTexts(l);
    case SetupSuccess | SetupFailure => SetupOutcomeTexts(l);
    case ReleasePartialContext | Cleanup => CleanupTexts(l);
    case _ => ReleaseTexts(l);
  }

  lemma NamesDistinct(a: Node, b: Node)
    requires Name(a) == Name(b)
    ensures a == b
  {
    NamesFit(a);
    NamesFit(b);
  }

  lemma TextsDistinct(a: Label, b: Label)
    requires Text(a) == Text(b)
    ensures a == b
  {
    TextsFit(a);
    TextsFit(b);
  }

  lemma NodeRowsDistinct(i: nat, j: nat)
    requires i < NODE_COUNT && j < NODE_COUNT && NodeAt(i).node == NodeAt(j).node
    ensures i == j
  {
  }

  lemma ContextRows(i: nat)
    requires i < 14
    ensures Row(EdgeAt(i).src, EdgeAt(i).event) == Some(i)
  {
  }

  lemma SecurityRows(i: nat)
    requires 14 <= i < 28
    ensures Row(EdgeAt(i).src, EdgeAt(i).event) == Some(i)
  {
  }

  lemma PolicyRows(i: nat)
    requires 28 <= i < 34
    ensures Row(EdgeAt(i).src, EdgeAt(i).event) == Some(i)
  {
  }

  lemma SessionRows(i: nat)
    requires 34 <= i < 40
    ensures Row(EdgeAt(i).src, EdgeAt(i).event) == Some(i)
  {
  }

  lemma SetupRows(i: nat)
    requires 40 <= i < 46
    ensures Row(EdgeAt(i).src, EdgeAt(i).event) == Some(i)
  {
  }

  lemma FailureRows(i: nat)
    requires 46 <= i < EDGE_COUNT
    ensures Row(EdgeAt(i).src, EdgeAt(i).event) == Some(i)
  {
  }

  /** No two rows share a state and an event: `Row` finds each row of the table. */
  lemma RowsComplete(i: nat)
    requires i < EDGE_COUNT
    ensures Row(EdgeAt(i).src, EdgeAt(i).event) == Some(i)
  {
    if i < 14 {
      ContextRows(i);
    } else if i < 28 {
      SecurityRows(i);
    } else if i < 34 {
      PolicyRows(i);
    } else if i < 40 {
      SessionRows(i);
    } else if i < 46 {
      SetupRows(i);
    } else {
      FailureRows(i);
    }
  }

  ghost predicate RowMatches(src: Node, event: Label)
    requires Row(src, event).Some?
  {
    var i := Row(src, event).value;
    i < EDGE_COUNT && EdgeAt(i).src == src && EdgeAt(i).event == event
  }

  lemma ArrivalRowSound(src: Node, event: Label)
    requires (src.RegReceived? || src.ContextLookup? || src.IdentityPending?) && Row(src, event).Some?
    ensures RowMatches(src, event)
  {
  }

  lemma SecurityRowSound(src: Node, event: Label)
    requires (src.AuthVectorPending? || src.NasAuthenticating? || src.NasSecurityPending?) && Row(src, event).Some?
    ensures RowMatches(src, event)
  {
  }

  lemma SubscriptionRowSound(src: Node, event: Label)
    requires (src.UdmRegistering? || src.SubscriptionLoading? || src.PolicyAssociating?) && Row(src, event).Some?
    ensures RowMatches(src, event)
  {
  }

  lemma SessionRowSound(src: Node, event: Label)
    requires (src.UeContextReady? || src.SmContextPending? || src.InitialContextSetup?) && Row(src, event).Some?
    ensures RowMatches(src, event)
  {
  }

  lemma AccessRowSound(src: Node, event: Label)
    requires (src.UeGnb? || src.Amf? || src.Ausf?) && Row(src, event).Some?
    ensures RowMatches(src, event)
  {
  }

  lemma NfRowSound(src: Node, event: Label)
    requires (src.Udm? || src.Pcf? || src.Smf?) && Row(src, event).Some?
    ensures RowMatches(src, event)
  {
  }

  lemma FailureRowSound(src: Node, event: Label)
    requires (src.RegRejected? || src.AuthFailed? || src.SecurityFailed? || src.PduSessionRejected?
          || src.ContextSetupFailed?) && Row(src, event).Some?
    ensures RowMatches(src, event)
  {
  }

  /** The row that `Row` names is a row of the table, with that state and event. */
  lemma RowSound(src: Node, event: Label)
    requires Row(src, event).Some?
    ensures RowMatches(src, event)
  {
    match src
    case RegReceived | ContextLookup | IdentityPending => ArrivalRowSound(src, event);
    case AuthVectorPending | NasAuthenticating | NasSecurityPending => SecurityRowSound(src, event);
    case UdmRegistering | SubscriptionLoading | PolicyAssociating => SubscriptionRowSound(src, event);
    case UeContextReady | SmContextPending | InitialContextSetup => SessionRowSound(src, event);
    case UeGnb | Amf | Ausf => AccessRowSound(src, event);
    case Udm | Pcf | Smf => NfRowSound(src, event);
    case RegRejected | AuthFailed | SecurityFailed | PduSessionRejected | ContextSetupFailed =>
      FailureRowSound(src, event);
    case _ =>
  }
}
