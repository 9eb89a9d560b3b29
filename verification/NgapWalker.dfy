/**
 * The uprobe on the NGAP dispatcher: it walks a Go message in raw memory by
 * offsets and strides and copies out the embedded NAS PDU.
 */
module NgapWalker {
  import opened Numbers
  import opened Frames
  import opened UserMemory

  const PRESENT_INITIATING := 1
  const PRESENT_SUCCESSFUL := 2
  const PRESENT_UNSUCCESSFUL := 3
  const OFF_MSGVALUE_FIELD: nat := 16
  const OFF_INITIAL_UE_MSG: nat := 232
  const OFF_UPLINK_NAS: nat := 392
  const PROC_INITIAL_UE_MESSAGE := 15
  const PROC_UPLINK_NAS_TRANSPORT := 46
  const PROTOCOL_IE_ID_NAS_PDU := 38
  const MAX_IE_SCAN: nat := 12
  const NAS_PDU_MAX: nat := 512

  /** The two messages that carry a NAS PDU; they differ in stride and in the place of the pointer. */
  datatype Kind = InitialUe | UplinkNas {
    function ProcedureCode(): int {
      if InitialUe? then PROC_INITIAL_UE_MESSAGE else PROC_UPLINK_NAS_TRANSPORT
    }

    function FieldOffset(): nat {
      if InitialUe? then OFF_INITIAL_UE_MSG else OFF_UPLINK_NAS
    }

    /** Offset of element `i` of the IE list: the strides are 96 and 56 bytes. */
    function Element(i: nat): nat {
      if InitialUe? then 96 * i else 56 * i
    }

    function PduOffset(): nat {
      if InitialUe? then 32 else 40
    }
  }

  // ----- what the program reads, from any memory whatever -----

  /** The octets found behind a NAS-PDU pointer, cut to the size of the event field. */
  function OctetsAt(user: User, pdu: nat): seq<Byte> {
    if pdu == 0 then []
    else
      var ptr, len := user.word(pdu), Signed(user.word(Plus(pdu, 8)));
      if ptr == 0 || len <= 0 then []
      else user.octets(ptr, if len > NAS_PDU_MAX then NAS_PDU_MAX else len)
  }

  /** The scan of the IE list from element `i` on. */
  function ScanFrom(user: User, list: nat, len: int, kind: Kind, i: nat): seq<Byte>
    decreases list, MAX_IE_SCAN - i
  {
    if i >= MAX_IE_SCAN || i >= len then []
    else
      var elem := Plus(list, kind.Element(i));
      if Signed(user.word(elem)) != PROTOCOL_IE_ID_NAS_PDU then ScanFrom(user, list, len, kind, i + 1)
      else OctetsAt(user, user.word(Plus(elem, kind.PduOffset())))
  }

  function EmbeddedPdu(user: User, sub: nat, kind: Kind): seq<Byte> {
    var msg := user.word(Plus(Plus(sub, OFF_MSGVALUE_FIELD), kind.FieldOffset()));
    if msg == 0 then []
    else
      var list, len := user.word(msg), Signed(user.word(Plus(msg, 8)));
      if list == 0 || len <= 0 then [] else ScanFrom(user, list, len, kind, 0)
  }

  /** Only two procedures carry a NAS PDU. */
  function PduOfProcedure(user: User, sub: nat, procCode: int): seq<Byte> {
    if procCode == PROC_INITIAL_UE_MESSAGE then EmbeddedPdu(user, sub, InitialUe)
    else if procCode == PROC_UPLINK_NAS_TRANSPORT then EmbeddedPdu(user, sub, UplinkNas)
    else []
  }

  // ----- the program -----

  /** The record of one dispatch. */
  class EventNgap {
    var present: int
    var procedureCode: int
    var nasPduLen: nat
    const nasPdu: array<Byte>

    /** A reserved record, zeroed. */
    constructor ()
      ensures present == 0 && procedureCode == 0 && nasPduLen == 0
      ensures fresh(nasPdu) && nasPdu[..] == Blank(NAS_PDU_MAX)
    {
      present, procedureCode, nasPduLen := 0, 0, 0;
      nasPdu := new Byte[NAS_PDU_MAX](i => 0);
    }
  }

  function Blank(n: nat): (b: seq<Byte>)
    ensures |b| == n && forall i :: 0 <= i < n ==> b[i] == 0
  {
    seq(n, i => 0)
  }

  /** The field holds `b` followed by zeros, and the length field says so. */
  ghost predicate Carries(e: EventNgap, b: seq<Byte>)
    reads e, e.nasPdu
  {
    |b| <= NAS_PDU_MAX && e.nasPduLen == |b| && e.nasPdu[..] == b + Blank(NAS_PDU_MAX - |b|)
  }

  function SubMessage(user: User, message: nat, present: int): nat {
    if present == PRESENT_INITIATING then user.word(Plus(message, 8))
    else if present == PRESENT_SUCCESSFUL then user.word(Plus(message, 16))
    else if present == PRESENT_UNSUCCESSFUL then user.word(Plus(message, 24))
    else 0
  }

  /** The pointers of the three alternatives lie at 8, 16 and 24. */
  lemma AlternativePointers(user: User, message: nat)
    ensures SubMessage(user, message, 1) == user.word((message + 8) % 0x1_0000_0000_0000_0000)
    ensures SubMessage(user, message, 2) == user.word((message + 16) % 0x1_0000_0000_0000_0000)
    ensures SubMessage(user, message, 3) == user.word((message + 24) % 0x1_0000_0000_0000_0000)
    ensures forall present :: !(1 <= present <= 3) ==> SubMessage(user, message, present) == 0
  {
  }

  method SubmsgPtr(user: User, message: nat, present: int, e: EventNgap) returns (sub: nat)
    modifies e`procedureCode
    ensures sub == SubMessage(user, message, present)
    ensures e.procedureCode == if sub == 0 then old(e.procedureCode) else Signed(user.word(sub))
  {
    var off: nat;
    if present == PRESENT_INITIATING {
      off := 8;
    } else if present == PRESENT_SUCCESSFUL {
      off := 16;
    } else if present == PRESENT_UNSUCCESSFUL {
      off := 24;
    } else {
      return 0;
    }
    sub := user.word(Plus(message, off));
    if sub == 0 {
      return 0;
    }
    e.procedureCode := Signed(user.word(sub));
  }

  /** `ngap_copy_embedded_nas_pdu`. */
  method CopyEmbeddedNasPdu(user: User, sub: nat, procCode: int, e: EventNgap)
    requires Carries(e, []) && Full(user)
    modifies e`nasPduLen, e.nasPdu
    ensures Carries(e, PduOfProcedure(user, sub, procCode))
  {
    var value := Plus(sub, OFF_MSGVALUE_FIELD);
    var kind: Kind;
    if procCode == PROC_INITIAL_UE_MESSAGE {
      kind := InitialUe;
    } else if procCode == PROC_UPLINK_NAS_TRANSPORT {
      kind := UplinkNas;
    } else {
      return;
    }
    var msg := user.word(Plus(value, kind.FieldOffset()));
    if msg == 0 {
      return;
    }
    var list, len := user.word(msg), Signed(user.word(Plus(msg, 8)));
    if list == 0 || len <= 0 {
      return;
    }
    ScanList(user, list, len, kind, e);
  }

  /** The bounded scan of the IE list. */
  method ScanList(user: User, list: nat, len: int, kind: Kind, e: EventNgap)
    requires Carries(e, []) && Full(user)
    modifies e`nasPduLen, e.nasPdu
    ensures Carries(e, ScanFrom(user, list, len, kind, 0))
  {
    ghost var found := ScanFrom(user, list, len, kind, 0);
    var i := 0;
    while i < MAX_IE_SCAN && i < len
      invariant 0 <= i <= MAX_IE_SCAN
      invariant Carries(e, []) && found == ScanFrom(user, list, len, kind, i)
    {
      var elem := Plus(list, kind.Element(i));
      var id := Signed(user.word(elem));
      if id == PROTOCOL_IE_ID_NAS_PDU {
        CopyOctets(user, user.word(Plus(elem, kind.PduOffset())), e);
        return;
      }
      i := i + 1;
    }
  }

  /** What the scan does at the NAS-PDU element before it breaks off. */
  method CopyOctets(user: User, pdu: nat, e: EventNgap)
    requires Carries(e, []) && Full(user)
    modifies e`nasPduLen, e.nasPdu
    ensures Carries(e, OctetsAt(user, pdu))
  {
    if pdu == 0 {
      return;
    }
    var ptr, octLen := user.word(pdu), Signed(user.word(Plus(pdu, 8)));
    if ptr == 0 || octLen <= 0 {
      return;
    }
    var copyLen := if octLen > NAS_PDU_MAX then NAS_PDU_MAX else octLen;
    StoreOctets(e, user.octets(ptr, copyLen));
  }

  method StoreOctets(e: EventNgap, b: seq<Byte>)
    requires Carries(e, []) && |b| <= NAS_PDU_MAX
    modifies e`nasPduLen, e.nasPdu
    ensures Carries(e, b)
  {
    forall k | 0 <= k < |b| {
      e.nasPdu[k] := b[k];
    }
    e.nasPduLen := |b|;
  }

  /** `amf_ngap_disp`, once a record is reserved and zeroed. */
  method Dispatch(user: User, message: nat) returns (e: EventNgap)
    requires Full(user)
    ensures fresh(e) && e.present == Signed(user.word(message))
    ensures var sub := SubMessage(user, message, e.present);
            var pdu := if sub == 0 || e.present != 1 then []
                       else if e.procedureCode == 15 then EmbeddedPdu(user, sub, InitialUe)
                       else if e.procedureCode == 46 then EmbeddedPdu(user, sub, UplinkNas)
                       else [];
            && e.procedureCode == (if sub == 0 then 0 else Signed(user.word(sub)))
            && e.nasPduLen == |pdu| <= 512 == e.nasPdu.Length
            && e.nasPdu[..|pdu|] == pdu && forall i :: |pdu| <= i < 512 ==> e.nasPdu[i] == 0
  {
    e := new EventNgap();
    e.present := Signed(user.word(message));
    var sub := SubmsgPtr(user, message, e.present, e);
    if sub != 0 && e.present == PRESENT_INITIATING {
      CopyEmbeddedNasPdu(user, sub, e.procedureCode, e);
    }
  }

  /** A nil pointer or a slice without a positive length on the way: there is no PDU. */
  lemma NothingBehindNil(user: User, sub: nat, kind: Kind)
    ensures var msg := user.word((sub + 16 + if kind.InitialUe? then 232 else 392) % 0x1_0000_0000_0000_0000);
            var list, len := user.word(msg), user.word((msg + 8) % 0x1_0000_0000_0000_0000);
            msg == 0 || list == 0 || len == 0 || 0x8000_0000_0000_0000 <= len < 0x1_0000_0000_0000_0000 ==>
              EmbeddedPdu(user, sub, kind) == []
  {
    SumOfSums(sub, 16, if kind.InitialUe? then 232 else 392);
  }

  lemma SumOfSums(a: nat, b: nat, c: nat)
    ensures Plus(Plus(a, b), c) == (a + b + c) % 0x1_0000_0000_0000_0000
  {
  }

  lemma NoOctetsBehindNil(user: User, pdu: nat)
    ensures var ptr, len := user.word(pdu), user.word((pdu + 8) % 0x1_0000_0000_0000_0000);
            pdu == 0 || ptr == 0 || len == 0 || 0x8000_0000_0000_0000 <= len < 0x1_0000_0000_0000_0000 ==>
              OctetsAt(user, pdu) == []
  {
  }

  // ----- messages laid out in memory -----

  datatype Pdu = NilPdu | Octets(octets: seq<Byte>)

  /** One protocol IE: its id and, when the id is that of the NAS PDU (38), the PDU. */
  datatype Ie = Ie(id: int, pdu: Pdu)

  ghost predicate PduAt(user: User, p: nat, pdu: Pdu) {
    match pdu
    case NilPdu => p == 0
    case Octets(b) => p != 0 && exists q :: SliceAt(user, p, q, |b|) && (b != [] ==> q != 0 && HoldsOctets(user, q, b))
  }

  /** A Go slice header: pointer and length. */
  ghost predicate SliceAt(user: User, p: nat, ptr: nat, len: nat) {
    len < TWO63 && HoldsWord(user, p, ptr) && HoldsWord(user, p + 8, len)
  }

  ghost predicate IeAt(user: User, elem: nat, kind: Kind, ie: Ie) {
    && -TWO63 <= ie.id < TWO63
    && HoldsWord(user, elem, Unsigned(ie.id))
    && (ie.id == 38 ==>
         exists p :: HoldsWord(user, elem + (if kind.InitialUe? then 32 else 40), p) && PduAt(user, p, ie.pdu))
  }

  ghost predicate ListAt(user: User, list: nat, kind: Kind, ies: seq<Ie>) {
    forall i :: 0 <= i < |ies| ==> IeAt(user, list + (if kind.InitialUe? then 96 * i else 56 * i), kind, ies[i])
  }

  /** An initiating message of this kind, with its IE list, reachable from `sub`. */
  ghost predicate MessageAt(user: User, sub: nat, kind: Kind, ies: seq<Ie>) {
    && HoldsWord(user, sub, if kind.InitialUe? then 15 else 46)
    && exists msg, list :: MessageBody(user, sub, kind, ies, msg, list)
  }

  ghost predicate MessageBody(user: User, sub: nat, kind: Kind, ies: seq<Ie>, msg: nat, list: nat) {
    && msg != 0 && HoldsWord(user, sub + 16 + (if kind.InitialUe? then 232 else 392), msg)
    && SliceAt(user, msg, list, |ies|)
    && (ies != [] ==> list != 0)
    && ListAt(user, list, kind, ies)
  }

  /** The NGAP PDU at `message`: present is "initiating" and points to that message. */
  ghost predicate NgapPduAt(user: User, message: nat, kind: Kind, ies: seq<Ie>) {
    && HoldsWord(user, message, 1)
    && exists sub :: sub != 0 && HoldsWord(user, message + 8, sub) && MessageAt(user, sub, kind, ies)
  }

  function Cut(b: seq<Byte>): seq<Byte> {
    if |b| > 512 then b[..512] else b
  }

  function PduOctets(pdu: Pdu): seq<Byte> {
    match pdu
    case NilPdu => []
    case Octets(b) => Cut(b)
  }

  /** The octets of the first NAS PDU among these IEs, cut to the field; nothing when there is none or it is nil. */
  function FirstNasPdu(ies: seq<Ie>): seq<Byte> {
    if ies == [] then []
    else if ies[0].id != 38 then FirstNasPdu(ies[1..])
    else PduOctets(ies[0].pdu)
  }

  function FirstTwelve(ies: seq<Ie>): seq<Ie> {
    if |ies| > 12 then ies[..12] else ies
  }

  /** It is the PDU of the first IE with id 38, and nothing if there is no such IE. */
  lemma {:induction false} FirstNasPduIs(ies: seq<Ie>, k: nat)
    requires k <= |ies| && forall j :: 0 <= j < k ==> ies[j].id != 38
    ensures k < |ies| && ies[k].id == 38 ==>
              FirstNasPdu(ies)
              == match ies[k].pdu case NilPdu => [] case Octets(b) => b[..if |b| < 512 then |b| else 512]
    ensures k == |ies| ==> FirstNasPdu(ies) == []
  {
    if k > 0 {
      FirstNasPduIs(ies[1..], k - 1);
    }
  }

  lemma SignedUndoesUnsigned(v: int)
    requires -TWO63 <= v < TWO63
    ensures Signed(Unsigned(v)) == v
  {
  }

  lemma OctetsAreRead(user: User, p: nat, pdu: Pdu)
    requires PduAt(user, p, pdu)
    ensures OctetsAt(user, p) == PduOctets(pdu)
  {
    if pdu.Octets? {
      var b := pdu.octets;
      var q: nat :| SliceAt(user, p, q, |b|) && (b != [] ==> q != 0 && HoldsOctets(user, q, b));
      PlusIsExact(p, 8);
      if b != [] {
      }
    }
  }

  lemma IeIsRead(user: User, elem: nat, kind: Kind, ie: Ie)
    requires IeAt(user, elem, kind, ie)
    ensures elem < TWO64 && Signed(user.word(elem)) == ie.id
    ensures ie.id == PROTOCOL_IE_ID_NAS_PDU ==>
              OctetsAt(user, user.word(Plus(elem, kind.PduOffset()))) == PduOctets(ie.pdu)
  {
    SignedUndoesUnsigned(ie.id);
    if ie.id == PROTOCOL_IE_ID_NAS_PDU {
      var p: nat :| HoldsWord(user, elem + kind.PduOffset(), p) && PduAt(user, p, ie.pdu);
      PlusIsExact(elem, kind.PduOffset());
      OctetsAreRead(user, p, ie.pdu);
    }
  }

  lemma {:induction false} ScanFindsFirst(user: User, list: nat, kind: Kind, ies: seq<Ie>, i: nat)
    requires ListAt(user, list, kind, ies) && i <= |FirstTwelve(ies)|
    ensures ScanFrom(user, list, |ies|, kind, i) == FirstNasPdu(FirstTwelve(ies)[i..])
    decreases list, MAX_IE_SCAN - i
  {
    var scanned := FirstTwelve(ies);
    if i < |scanned| {
      var elem := list + kind.Element(i);
      IeIsRead(user, elem, kind, ies[i]);
      PlusIsExact(list, kind.Element(i));
      assert scanned[i..][1..] == scanned[i + 1..];
      if ies[i].id != PROTOCOL_IE_ID_NAS_PDU {
        ScanFindsFirst(user, list, kind, ies, i + 1);
      }
    }
  }

  lemma BodyIsRead(user: User, sub: nat, kind: Kind, ies: seq<Ie>, msg: nat, list: nat)
    requires MessageBody(user, sub, kind, ies, msg, list)
    ensures user.word(Plus(Plus(sub, OFF_MSGVALUE_FIELD), kind.FieldOffset())) == msg
    ensures user.word(msg) == list && Signed(user.word(Plus(msg, 8))) == |ies|
  {
    PlusIsExact(sub, OFF_MSGVALUE_FIELD);
    PlusIsExact(sub + OFF_MSGVALUE_FIELD, kind.FieldOffset());
    PlusIsExact(msg, 8);
  }

  /**
   * For every message laid out at the offsets and strides of the Go structures (the elements of
   * the two lists are 96 and 56 bytes long), the walker reads the first NAS PDU among the first
   * twelve IEs, cut to 512 bytes.
   */
  lemma WalkerUndoesLayout(user: User, sub: nat, kind: Kind, ies: seq<Ie>)
    requires MessageAt(user, sub, kind, ies)
    ensures EmbeddedPdu(user, sub, kind) == FirstNasPdu(FirstTwelve(ies))
  {
    var msg: nat, list: nat :| MessageBody(user, sub, kind, ies, msg, list);
    BodyIsRead(user, sub, kind, ies, msg, list);
    ScanFindsFirst(user, list, kind, ies, 0);
    assert FirstTwelve(ies)[0..] == FirstTwelve(ies);
  }

  /** The whole probe on a laid-out NGAP PDU: the record has the procedure code and the octets. */
  method DispatchLaidOut(user: User, message: nat, ghost kind: Kind, ghost ies: seq<Ie>) returns (e: EventNgap)
    requires Full(user) && NgapPduAt(user, message, kind, ies)
    ensures fresh(e) && e.present == 1 && e.procedureCode == if kind.InitialUe? then 15 else 46
    ensures var pdu := FirstNasPdu(FirstTwelve(ies));
            && e.nasPduLen == |pdu| <= 512 == e.nasPdu.Length
            && e.nasPdu[..|pdu|] == pdu && forall i :: |pdu| <= i < 512 ==> e.nasPdu[i] == 0
  {
    ghost var sub :| sub != 0 && HoldsWord(user, message + 8, sub) && MessageAt(user, sub, kind, ies);
    PlusIsExact(message, 8);
    WalkerUndoesLayout(user, sub, kind, ies);
    e := Dispatch(user, message);
  }
}
