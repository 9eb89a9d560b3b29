/**
 * NGAP messages as bytes in user memory: what it means that one lies there at the
 * declared offsets and strides, and memory built to hold any given one.
 */
module NgapLayout {
  import opened Numbers
  import opened Sequences
  import opened Frames
  import opened UserMemory
  import opened NgapWalker

  // ----- a message in bytes -----

  /** A little-endian word lies at the address. */
  ghost predicate WordIn(mem: Memory, a: nat, v: nat) {
    v < TWO64 && Holds(mem, a, Encode(v, 8))
  }

  /** A Go slice header: pointer and length. */
  ghost predicate SliceIn(mem: Memory, p: nat, ptr: nat, len: nat) {
    len < TWO63 && WordIn(mem, p, ptr) && WordIn(mem, p + 8, len)
  }

  ghost predicate OctetsIn(mem: Memory, p: nat, q: nat, b: seq<Byte>) {
    SliceIn(mem, p, q, |b|) && (b != [] ==> q != 0 && Holds(mem, q, b))
  }

  ghost predicate PduIn(mem: Memory, p: nat, pdu: Pdu) {
    match pdu
    case NilPdu => p == 0
    case Octets(b) => p != 0 && exists q :: OctetsIn(mem, p, q, b)
  }

  ghost predicate IeIn(mem: Memory, elem: nat, kind: Kind, ie: Ie) {
    && -TWO63 <= ie.id < TWO63
    && WordIn(mem, elem, Unsigned(ie.id))
    && (ie.id == 38 ==>
         exists p :: WordIn(mem, elem + (if kind.InitialUe? then 32 else 40), p) && PduIn(mem, p, ie.pdu))
  }

  ghost predicate ListIn(mem: Memory, list: nat, kind: Kind, ies: seq<Ie>) {
    forall i :: 0 <= i < |ies| ==> IeIn(mem, list + (if kind.InitialUe? then 96 * i else 56 * i), kind, ies[i])
  }

  ghost predicate BodyIn(mem: Memory, sub: nat, kind: Kind, ies: seq<Ie>, msg: nat, list: nat) {
    && msg != 0 && WordIn(mem, sub + 16 + (if kind.InitialUe? then 232 else 392), msg)
    && SliceIn(mem, msg, list, |ies|)
    && (ies != [] ==> list != 0)
    && ListIn(mem, list, kind, ies)
  }

  /** An initiating message of this kind, with its IE list, lies at `sub`. */
  ghost predicate MessageIn(mem: Memory, sub: nat, kind: Kind, ies: seq<Ie>) {
    && WordIn(mem, sub, if kind.InitialUe? then 15 else 46)
    && exists msg, list :: BodyIn(mem, sub, kind, ies, msg, list)
  }

  /** The NGAP PDU at `message`: present is "initiating" and points to that message. */
  ghost predicate NgapPduIn(mem: Memory, message: nat, kind: Kind, ies: seq<Ie>) {
    && WordIn(mem, message, 1)
    && exists sub :: sub != 0 && WordIn(mem, message + 8, sub) && MessageIn(mem, sub, kind, ies)
  }

  // ----- a probe sees what lies there -----

  lemma WordIsSeen(mem: Memory, a: nat, v: nat)
    requires WordIn(mem, a, v)
    ensures HoldsWord(Mapped(mem), a, v)
  {
    WordIsHeld(mem, a, v);
  }

  lemma SliceIsSeen(mem: Memory, p: nat, ptr: nat, len: nat)
    requires SliceIn(mem, p, ptr, len)
    ensures SliceAt(Mapped(mem), p, ptr, len)
  {
    WordIsSeen(mem, p, ptr);
    WordIsSeen(mem, p + 8, len);
  }

  lemma PduIsSeen(mem: Memory, p: nat, pdu: Pdu)
    requires PduIn(mem, p, pdu)
    ensures PduAt(Mapped(mem), p, pdu)
  {
    if pdu.Octets? {
      var q :| OctetsIn(mem, p, q, pdu.octets);
      SliceIsSeen(mem, p, q, |pdu.octets|);
      if pdu.octets != [] {
        BytesAreHeld(mem, q, pdu.octets);
      }
    }
  }

  lemma IeIsSeen(mem: Memory, elem: nat, kind: Kind, ie: Ie)
    requires IeIn(mem, elem, kind, ie)
    ensures IeAt(Mapped(mem), elem, kind, ie)
  {
    WordIsSeen(mem, elem, Unsigned(ie.id));
    if ie.id == 38 {
      var at := elem + if kind.InitialUe? then 32 else 40;
      var p :| WordIn(mem, at, p) && PduIn(mem, p, ie.pdu);
      WordIsSeen(mem, at, p);
      PduIsSeen(mem, p, ie.pdu);
    }
  }

  lemma ListIsSeen(mem: Memory, list: nat, kind: Kind, ies: seq<Ie>)
    requires ListIn(mem, list, kind, ies)
    ensures ListAt(Mapped(mem), list, kind, ies)
  {
    forall i | 0 <= i < |ies|
      ensures IeAt(Mapped(mem), list + kind.Element(i), kind, ies[i])
    {
      IeIsSeen(mem, list + kind.Element(i), kind, ies[i]);
    }
  }

  lemma BodyIsSeen(mem: Memory, sub: nat, kind: Kind, ies: seq<Ie>, msg: nat, list: nat)
    requires BodyIn(mem, sub, kind, ies, msg, list)
    ensures MessageBody(Mapped(mem), sub, kind, ies, msg, list)
  {
    WordIsSeen(mem, sub + OFF_MSGVALUE_FIELD + kind.FieldOffset(), msg);
    SliceIsSeen(mem, msg, list, |ies|);
    ListIsSeen(mem, list, kind, ies);
  }

  lemma MessageIsSeen(mem: Memory, sub: nat, kind: Kind, ies: seq<Ie>)
    requires MessageIn(mem, sub, kind, ies)
    ensures MessageAt(Mapped(mem), sub, kind, ies)
  {
    WordIsSeen(mem, sub, kind.ProcedureCode());
    var msg, list :| BodyIn(mem, sub, kind, ies, msg, list);
    BodyIsSeen(mem, sub, kind, ies, msg, list);
  }

  /**
   * From bytes at the declared offsets and strides the walker reads
   * the first NAS PDU of the first twelve IEs, cut to 512.
   */
  lemma WalkerReadsBytes(mem: Memory, sub: nat, kind: Kind, ies: seq<Ie>)
    requires MessageIn(mem, sub, kind, ies)
    ensures EmbeddedPdu(Mapped(mem), sub, kind) == FirstNasPdu(FirstTwelve(ies))
  {
    MessageIsSeen(mem, sub, kind, ies);
    WalkerUndoesLayout(Mapped(mem), sub, kind, ies);
  }

  /** And so for the whole PDU: what `DispatchLaidOut` asks for. */
  lemma PduIsDispatchable(mem: Memory, message: nat, kind: Kind, ies: seq<Ie>)
    requires NgapPduIn(mem, message, kind, ies)
    ensures NgapPduAt(Mapped(mem), message, kind, ies) && Full(Mapped(mem))
  {
    WordIsSeen(mem, message, PRESENT_INITIATING);
    var sub :| sub != 0 && WordIn(mem, message + 8, sub) && MessageIn(mem, sub, kind, ies);
    WordIsSeen(mem, message + 8, sub);
    MessageIsSeen(mem, sub, kind, ies);
    var user := Mapped(mem);
    forall a: nat, n: nat
      ensures |user.octets(a, n)| == n
    {
    }
  }

  // ----- memory that holds a given message -----

  function Store(mem: Memory, a: nat, b: seq<Byte>): Memory {
    if b == [] then mem else Store(mem, a, Init(b))[a + |b| - 1 := Last(b)]
  }

  lemma {:induction false} StoreAt(mem: Memory, a: nat, b: seq<Byte>, i: nat)
    ensures var m := Store(mem, a, b);
            if a <= i < a + |b| then i in m && m[i] == b[i - a]
            else (i in m <==> i in mem) && (i in m ==> m[i] == mem[i])
  {
    if b != [] {
      StoreAt(mem, a, Init(b), i);
    }
  }

  lemma StoreHolds(mem: Memory, a: nat, b: seq<Byte>)
    requires a + |b| <= TWO64
    ensures Holds(Store(mem, a, b), a, b)
  {
    forall i | a <= i < a + |b|
      ensures i in Store(mem, a, b)
    {
      StoreAt(mem, a, b, i);
    }
    forall k | 0 <= k < |b|
      ensures Store(mem, a, b)[a + k] == b[k]
    {
      StoreAt(mem, a, b, a + k);
    }
  }

  /** What is held below or above stays. */
  lemma StoreKeeps(mem: Memory, a: nat, b: seq<Byte>, c: nat, d: seq<Byte>)
    requires Holds(mem, c, d) && (c + |d| <= a || a + |b| <= c)
    ensures Holds(Store(mem, a, b), c, d)
  {
    forall i | c <= i < c + |d|
      ensures i in Store(mem, a, b)
    {
      StoreAt(mem, a, b, i);
    }
    forall k | 0 <= k < |d|
      ensures Store(mem, a, b)[c + k] == d[k]
    {
      StoreAt(mem, a, b, c + k);
    }
  }

  /** Bytes to be put at an address. */
  datatype Put = Put(at: nat, bytes: seq<Byte>) {
    function End(): nat {
      at + |bytes|
    }
  }

  function WordPut(a: nat, v: nat): Put {
    Put(a, Encode(v, 8))
  }

  function StoreAll(puts: seq<Put>): Memory {
    if puts == [] then map[] else Store(StoreAll(Init(puts)), Last(puts).at, Last(puts).bytes)
  }

  /** The puts lie in [lo, hi), one above the other. */
  predicate Between(puts: seq<Put>, lo: nat, hi: nat) {
    && (forall i :: 0 <= i < |puts| ==> lo <= puts[i].at && puts[i].End() <= hi)
    && (forall i, j :: 0 <= i < j < |puts| ==> puts[i].End() <= puts[j].at)
  }

  lemma BetweenJoined(a: seq<Put>, b: seq<Put>, lo: nat, mid: nat, hi: nat)
    requires Between(a, lo, mid) && Between(b, mid, hi) && lo <= mid <= hi
    ensures Between(a + b, lo, hi)
  {
  }

  lemma {:induction false} AllStored(puts: seq<Put>, lo: nat, hi: nat, k: nat)
    requires Between(puts, lo, hi) && hi <= TWO64 && k < |puts|
    ensures Holds(StoreAll(puts), puts[k].at, puts[k].bytes)
  {
    var m, last := StoreAll(Init(puts)), Last(puts);
    if k == |puts| - 1 {
      StoreHolds(m, last.at, last.bytes);
    } else {
      AllStored(Init(puts), lo, hi, k);
      StoreKeeps(m, last.at, last.bytes, puts[k].at, puts[k].bytes);
    }
  }

  lemma PutIsStored(puts: seq<Put>, lo: nat, hi: nat, w: Put)
    requires Between(puts, lo, hi) && hi <= TWO64 && w in puts
    ensures Holds(StoreAll(puts), w.at, w.bytes)
  {
    var k :| 0 <= k < |puts| && puts[k] == w;
    AllStored(puts, lo, hi, k);
  }

  // ----- the PDU, the message and the slice header of its list -----

  const SUB: nat := 16
  const MSG: nat := 440
  const LIST: nat := 456

  function Structs(base: nat, kind: Kind, count: nat): seq<Put> {
    [WordPut(base, PRESENT_INITIATING), WordPut(base + 8, base + SUB),
     WordPut(base + SUB, kind.ProcedureCode()),
     WordPut(base + SUB + OFF_MSGVALUE_FIELD + kind.FieldOffset(), base + MSG),
     WordPut(base + MSG, base + LIST), WordPut(base + MSG + 8, count)]
  }

  lemma StructsBetween(base: nat, kind: Kind, count: nat)
    ensures Between(Structs(base, kind, count), base, base + LIST)
  {
  }

  // ----- the elements of the list, and the octets behind them -----

  predicate Storable(ies: seq<Ie>) {
    forall i :: 0 <= i < |ies| ==> -TWO63 <= ies[i].id < TWO63
  }

  predicate HasOctets(ie: Ie) {
    ie.id == PROTOCOL_IE_ID_NAS_PDU && ie.pdu.Octets?
  }

  /** Where the octets of the next IE go when those of these IEs start at `free`. */
  function FreeAfter(free: nat, ies: seq<Ie>): nat {
    if ies == [] then free
    else FreeAfter(free, Init(ies)) + if HasOctets(Last(ies)) then 16 + |Last(ies).pdu.octets| else 0
  }

  /** The id of an element and, for a NAS PDU, the pointer to it, which is at `p` if it is not nil. */
  function ElementPuts(elem: nat, kind: Kind, ie: Ie, p: nat): seq<Put>
    requires -TWO63 <= ie.id < TWO63
  {
    if ie.id != PROTOCOL_IE_ID_NAS_PDU then [WordPut(elem, Unsigned(ie.id))]
    else [WordPut(elem, Unsigned(ie.id)), WordPut(elem + kind.PduOffset(), if ie.pdu.NilPdu? then 0 else p)]
  }

  function ListPuts(list: nat, kind: Kind, ies: seq<Ie>, free: nat): seq<Put>
    requires Storable(ies)
  {
    if ies == [] then []
    else
      ListPuts(list, kind, Init(ies), free)
      + ElementPuts(list + kind.Element(|ies| - 1), kind, Last(ies), FreeAfter(free, Init(ies)))
  }

  /** The slice header of the octets, and the octets. */
  function OctetPuts(ie: Ie, p: nat): seq<Put> {
    if HasOctets(ie) then [WordPut(p, p + 16), WordPut(p + 8, |ie.pdu.octets|), Put(p + 16, ie.pdu.octets)] else []
  }

  function AllOctetPuts(ies: seq<Ie>, free: nat): seq<Put> {
    if ies == [] then [] else AllOctetPuts(Init(ies), free) + OctetPuts(Last(ies), FreeAfter(free, Init(ies)))
  }

  lemma ElementBetween(list: nat, kind: Kind, n: nat, ie: Ie, p: nat)
    requires -TWO63 <= ie.id < TWO63
    ensures Between(ElementPuts(list + kind.Element(n), kind, ie, p),
                    list + kind.Element(n), list + kind.Element(n + 1))
  {
  }

  lemma {:induction false} ListBetween(list: nat, kind: Kind, ies: seq<Ie>, free: nat)
    requires Storable(ies)
    ensures Between(ListPuts(list, kind, ies, free), list, list + kind.Element(|ies|))
  {
    if ies != [] {
      ListBetween(list, kind, Init(ies), free);
      LastBetween(list, kind, ies, free, ListPuts(list, kind, Init(ies), free));
    }
  }

  lemma LastBetween(list: nat, kind: Kind, ies: seq<Ie>, free: nat, puts: seq<Put>)
    requires ies != [] && Storable(ies) && Between(puts, list, list + kind.Element(|ies| - 1))
    ensures Between(puts + ElementPuts(list + kind.Element(|ies| - 1), kind, Last(ies), FreeAfter(free, Init(ies))),
                    list, list + kind.Element(|ies|))
  {
    var n, p := |ies| - 1, FreeAfter(free, Init(ies));
    ElementBetween(list, kind, n, Last(ies), p);
    BetweenJoined(puts, ElementPuts(list + kind.Element(n), kind, Last(ies), p),
                  list, list + kind.Element(n), list + kind.Element(n + 1));
  }

  lemma {:induction false} OctetsBetween(ies: seq<Ie>, free: nat)
    ensures free <= FreeAfter(free, ies) && Between(AllOctetPuts(ies, free), free, FreeAfter(free, ies))
  {
    if ies != [] {
      OctetsBetween(Init(ies), free);
      BetweenJoined(AllOctetPuts(Init(ies), free), OctetPuts(Last(ies), FreeAfter(free, Init(ies))),
                    free, FreeAfter(free, Init(ies)), FreeAfter(free, ies));
    }
  }

  predicate Includes(puts: seq<Put>, some: seq<Put>) {
    forall w :: w in some ==> w in puts
  }

  lemma {:induction false} ListHasElement(list: nat, kind: Kind, ies: seq<Ie>, free: nat, i: nat)
    requires Storable(ies) && i < |ies|
    ensures Includes(ListPuts(list, kind, ies, free),
                     ElementPuts(list + kind.Element(i), kind, ies[i], FreeAfter(free, ies[..i])))
  {
    assert ies[..|ies| - 1] == Init(ies);
    if i < |ies| - 1 {
      ListHasElement(list, kind, Init(ies), free, i);
      assert Init(ies)[..i] == ies[..i];
    }
  }

  lemma {:induction false} OctetsHaveElement(ies: seq<Ie>, free: nat, i: nat)
    requires i < |ies|
    ensures Includes(AllOctetPuts(ies, free), OctetPuts(ies[i], FreeAfter(free, ies[..i])))
  {
    assert ies[..|ies| - 1] == Init(ies);
    if i < |ies| - 1 {
      OctetsHaveElement(Init(ies), free, i);
      assert Init(ies)[..i] == ies[..i];
    }
  }

  // ----- all of it -----

  function FreeFrom(base: nat, kind: Kind, ies: seq<Ie>): nat {
    base + LIST + kind.Element(|ies|)
  }

  function AllPuts(base: nat, kind: Kind, ies: seq<Ie>): seq<Put>
    requires Storable(ies)
  {
    Structs(base, kind, |ies|)
    + (ListPuts(base + LIST, kind, ies, FreeFrom(base, kind, ies)) + AllOctetPuts(ies, FreeFrom(base, kind, ies)))
  }

  /** Memory that holds an NGAP PDU with these IEs, and nothing else. */
  function Layout(base: nat, kind: Kind, ies: seq<Ie>): Memory
    requires Storable(ies)
  {
    StoreAll(AllPuts(base, kind, ies))
  }

  /** The whole of it ends in the lower half of the address space. */
  predicate Fits(base: nat, kind: Kind, ies: seq<Ie>) {
    Storable(ies) && FreeAfter(FreeFrom(base, kind, ies), ies) <= TWO63
  }

  lemma AllBetween(base: nat, kind: Kind, ies: seq<Ie>)
    requires Storable(ies)
    ensures FreeFrom(base, kind, ies) <= FreeAfter(FreeFrom(base, kind, ies), ies)
    ensures Between(AllPuts(base, kind, ies), base, FreeAfter(FreeFrom(base, kind, ies), ies))
  {
    var list, free := base + LIST, FreeFrom(base, kind, ies);
    var end := FreeAfter(free, ies);
    StructsBetween(base, kind, |ies|);
    ListBetween(list, kind, ies, free);
    OctetsBetween(ies, free);
    BetweenJoined(ListPuts(list, kind, ies, free), AllOctetPuts(ies, free), list, free, end);
    BetweenJoined(Structs(base, kind, |ies|), ListPuts(list, kind, ies, free) + AllOctetPuts(ies, free),
                  base, list, end);
  }

  lemma PutsAreHeld(base: nat, kind: Kind, ies: seq<Ie>, some: seq<Put>)
    requires Fits(base, kind, ies) && Includes(AllPuts(base, kind, ies), some)
    ensures AllHeld(Layout(base, kind, ies), some)
  {
    AllBetween(base, kind, ies);
    forall k | 0 <= k < |some|
      ensures Holds(Layout(base, kind, ies), some[k].at, some[k].bytes)
    {
      PutIsStored(AllPuts(base, kind, ies), base, FreeAfter(FreeFrom(base, kind, ies), ies), some[k]);
    }
  }

  ghost predicate AllHeld(mem: Memory, puts: seq<Put>) {
    forall k :: 0 <= k < |puts| ==> Holds(mem, puts[k].at, puts[k].bytes)
  }

  /** An element and its octets, held where they are put, are an IE. */
  lemma IeFromPuts(mem: Memory, elem: nat, kind: Kind, ie: Ie, p: nat)
    requires -TWO63 <= ie.id < TWO63 && 0 < p && (HasOctets(ie) ==> p + 16 + |ie.pdu.octets| <= TWO63)
    requires p < TWO64 && AllHeld(mem, ElementPuts(elem, kind, ie, p)) && AllHeld(mem, OctetPuts(ie, p))
    ensures IeIn(mem, elem, kind, ie)
  {
    var puts, octets := ElementPuts(elem, kind, ie, p), OctetPuts(ie, p);
    assert Holds(mem, puts[0].at, puts[0].bytes);
    if ie.id == PROTOCOL_IE_ID_NAS_PDU {
      assert Holds(mem, puts[1].at, puts[1].bytes);
      if ie.pdu.Octets? {
        OctetsFromPuts(mem, ie, p);
      }
      var at := if ie.pdu.NilPdu? then 0 else p;
      assert WordIn(mem, elem + kind.PduOffset(), at) && PduIn(mem, at, ie.pdu);
    }
  }

  lemma OctetsFromPuts(mem: Memory, ie: Ie, p: nat)
    requires HasOctets(ie) && p + 16 + |ie.pdu.octets| <= TWO63 && AllHeld(mem, OctetPuts(ie, p))
    ensures OctetsIn(mem, p, p + 16, ie.pdu.octets)
  {
    var octets := OctetPuts(ie, p);
    assert Holds(mem, octets[0].at, octets[0].bytes);
    assert Holds(mem, octets[1].at, octets[1].bytes);
    assert Holds(mem, octets[2].at, octets[2].bytes);
  }

  lemma IncludesPart(x: seq<Put>, a: seq<Put>, z: seq<Put>, some: seq<Put>)
    requires Includes(a, some) || Includes(z, some)
    ensures Includes(x + (a + z), some)
  {
  }

  // Induction over the list, which Dafny would try by itself, is of no use from here to `ListIsHeld`.

  lemma {:induction false} PartIsHeld(base: nat, kind: Kind, ies: seq<Ie>, some: seq<Put>)
    requires Fits(base, kind, ies)
    requires || Includes(ListPuts(base + LIST, kind, ies, FreeFrom(base, kind, ies)), some)
             || Includes(AllOctetPuts(ies, FreeFrom(base, kind, ies)), some)
    ensures AllHeld(Layout(base, kind, ies), some)
  {
    var list, free := base + LIST, FreeFrom(base, kind, ies);
    IncludesPart(Structs(base, kind, |ies|), ListPuts(list, kind, ies, free), AllOctetPuts(ies, free), some);
    PutsAreHeld(base, kind, ies, some);
  }

  lemma {:induction false} ElementPutsHeld(base: nat, kind: Kind, ies: seq<Ie>, i: nat, p: nat)
    requires Fits(base, kind, ies) && i < |ies| && p == FreeAfter(FreeFrom(base, kind, ies), ies[..i])
    ensures AllHeld(Layout(base, kind, ies), ElementPuts(base + LIST + kind.Element(i), kind, ies[i], p))
  {
    ListHasElement(base + LIST, kind, ies, FreeFrom(base, kind, ies), i);
    PartIsHeld(base, kind, ies, ElementPuts(base + LIST + kind.Element(i), kind, ies[i], p));
  }

  lemma {:induction false} OctetPutsHeld(base: nat, kind: Kind, ies: seq<Ie>, i: nat, p: nat)
    requires Fits(base, kind, ies) && i < |ies| && p == FreeAfter(FreeFrom(base, kind, ies), ies[..i])
    ensures AllHeld(Layout(base, kind, ies), OctetPuts(ies[i], p))
  {
    OctetsHaveElement(ies, FreeFrom(base, kind, ies), i);
    PartIsHeld(base, kind, ies, OctetPuts(ies[i], p));
  }

  /** The place of the octets of element `i` lies in the lower half of the address space. */
  lemma {:induction false} PlaceFits(base: nat, kind: Kind, ies: seq<Ie>, i: nat)
    requires Fits(base, kind, ies) && i < |ies|
    ensures var p := FreeAfter(FreeFrom(base, kind, ies), ies[..i]);
            && 0 < p < TWO64 && -TWO63 <= ies[i].id < TWO63
            && (HasOctets(ies[i]) ==> p + 16 + |ies[i].pdu.octets| <= TWO63)
  {
    var free := FreeFrom(base, kind, ies);
    OctetsBetween(ies[..i], free);
    OctetsFit(ies, free, i);
  }

  ghost predicate IsElement(mem: Memory, list: nat, kind: Kind, ies: seq<Ie>, i: nat)
    requires i < |ies|
  {
    IeIn(mem, list + kind.Element(i), kind, ies[i])
  }

  lemma {:induction false} ElementIsHeld(base: nat, kind: Kind, ies: seq<Ie>, i: nat)
    requires Fits(base, kind, ies) && i < |ies|
    ensures IsElement(Layout(base, kind, ies), base + LIST, kind, ies, i)
  {
    var p := FreeAfter(FreeFrom(base, kind, ies), ies[..i]);
    ElementPutsHeld(base, kind, ies, i, p);
    OctetPutsHeld(base, kind, ies, i, p);
    PlaceFits(base, kind, ies, i);
    IeFromPuts(Layout(base, kind, ies), base + LIST + kind.Element(i), kind, ies[i], p);
  }

  lemma {:induction false} OctetsFit(ies: seq<Ie>, free: nat, i: nat)
    requires i < |ies|
    ensures FreeAfter(free, ies[..i]) <= FreeAfter(free, ies)
    ensures HasOctets(ies[i]) ==> FreeAfter(free, ies[..i]) + 16 + |ies[i].pdu.octets| <= FreeAfter(free, ies)
  {
    assert ies[..|ies| - 1] == Init(ies);
    if i < |ies| - 1 {
      OctetsFit(Init(ies), free, i);
      assert Init(ies)[..i] == ies[..i];
    }
  }

  lemma PduFromParts(mem: Memory, base: nat, kind: Kind, ies: seq<Ie>)
    requires base + LIST <= TWO63 && |ies| < TWO63 && ListIn(mem, base + LIST, kind, ies)
    requires AllHeld(mem, Structs(base, kind, |ies|))
    ensures NgapPduIn(mem, base, kind, ies) && MessageIn(mem, base + SUB, kind, ies)
  {
    var sub := base + SUB;
    WordsFromStructs(mem, base, kind, |ies|);
    assert BodyIn(mem, sub, kind, ies, base + MSG, base + LIST);
    assert sub != 0 && MessageIn(mem, sub, kind, ies);
  }

  lemma WordsFromStructs(mem: Memory, base: nat, kind: Kind, count: nat)
    requires base + LIST <= TWO63 && count < TWO63 && AllHeld(mem, Structs(base, kind, count))
    ensures WordIn(mem, base, 1) && WordIn(mem, base + 8, base + SUB)
    ensures WordIn(mem, base + SUB, if kind.InitialUe? then 15 else 46)
    ensures WordIn(mem, base + SUB + 16 + (if kind.InitialUe? then 232 else 392), base + MSG)
    ensures SliceIn(mem, base + MSG, base + LIST, count)
  {
    var w := Structs(base, kind, count);
    assert Holds(mem, w[0].at, w[0].bytes) && Holds(mem, w[1].at, w[1].bytes) && Holds(mem, w[2].at, w[2].bytes);
    assert Holds(mem, w[3].at, w[3].bytes) && Holds(mem, w[4].at, w[4].bytes) && Holds(mem, w[5].at, w[5].bytes);
  }

  lemma ListFromElements(mem: Memory, list: nat, kind: Kind, ies: seq<Ie>)
    requires forall i :: 0 <= i < |ies| ==> IsElement(mem, list, kind, ies, i)
    ensures ListIn(mem, list, kind, ies)
  {
    forall i | 0 <= i < |ies|
      ensures IeIn(mem, list + (if kind.InitialUe? then 96 * i else 56 * i), kind, ies[i])
    {
      assert IsElement(mem, list, kind, ies, i);
    }
  }

  lemma {:induction false} ListIsHeld(base: nat, kind: Kind, ies: seq<Ie>)
    requires Fits(base, kind, ies)
    ensures ListIn(Layout(base, kind, ies), base + LIST, kind, ies)
  {
    var list := base + LIST;
    forall i | 0 <= i < |ies|
      ensures IsElement(Layout(base, kind, ies), list, kind, ies, i)
    {
      ElementIsHeld(base, kind, ies, i);
    }
    ListFromElements(Layout(base, kind, ies), list, kind, ies);
  }

  /** Every list of IEs that fits into the lower half of the address space can be laid out, anywhere there. */
  lemma LayoutHolds(base: nat, kind: Kind, ies: seq<Ie>)
    requires Fits(base, kind, ies)
    ensures NgapPduIn(Layout(base, kind, ies), base, kind, ies)
    ensures MessageIn(Layout(base, kind, ies), base + SUB, kind, ies)
  {
    ListIsHeld(base, kind, ies);
    AllBetween(base, kind, ies);
    PutsAreHeld(base, kind, ies, Structs(base, kind, |ies|));
    PduFromParts(Layout(base, kind, ies), base, kind, ies);
  }

  /** The walker undoes the layout. */
  lemma WalkerUndoesStoring(base: nat, kind: Kind, ies: seq<Ie>)
    requires Fits(base, kind, ies)
    ensures EmbeddedPdu(Mapped(Layout(base, kind, ies)), base + SUB, kind) == FirstNasPdu(FirstTwelve(ies))
  {
    LayoutHolds(base, kind, ies);
    WalkerReadsBytes(Layout(base, kind, ies), base + SUB, kind, ies);
  }
}
