/**
 * A literal put between two fragments of a header block, wherever the block was cut.
 * Which first fragments are safe: the literal arrives whatever the rest of the block is.
 */
module HpackFragments {
  import opened Options
  import opened Sequences
  import opened Frames
  import opened Hpack

  // ----- what is asked of the insertion -----

  /** `r` is the header list `d` with `h` somewhere in it, and the same table. */
  predicate Extends(d: Decoded, h: Header, k: nat, r: Option<Decoded>) {
    k <= |d.headers| && r == Some(Decoded(d.headers[..k] + [h] + d.headers[k..], d.table))
  }

  predicate Completes(c: Codec, b: seq<Byte>, t: Table, more: seq<Byte>) {
    Decode(c, b + more, t).Some?
  }

  /** With `x` put between the fragment and the rest, the old headers and `h` are decoded. */
  ghost predicate Delivered(c: Codec, b: seq<Byte>, x: seq<Byte>, h: Header, t: Table, more: seq<Byte>)
    requires Completes(c, b, t, more)
  {
    exists k :: Extends(Decode(c, b + more, t).value, h, k, Decode(c, b + (x + more), t))
  }

  /** Whatever makes the fragment a block, the header is delivered. */
  ghost predicate Safe(c: Codec, b: seq<Byte>, x: seq<Byte>, h: Header, t: Table) {
    forall more :: Completes(c, b, t, more) ==> Delivered(c, b, x, h, t, more)
  }

  // ----- a fragment that ends where a field ends -----

  predicate StartsWithSizeUpdate(b: seq<Byte>) {
    b != [] && 32 <= b[0] < 64
  }

  /** Whether a block has started only matters to a size update at its front. */
  lemma StartMatters(c: Codec, b: seq<Byte>, t: Table)
    requires DecodeBlock(c, b, t, true).Some?
    ensures DecodeBlock(c, b, t, false) == if StartsWithSizeUpdate(b) then None else DecodeBlock(c, b, t, true)
  {
  }

  /**
   * At a field boundary the header appears between the headers before and those after it exactly
   * when a header was decoded before, or no table size update comes next.
   */
  lemma InsertedExactly(c: Codec, b: seq<Byte>, h: Header, more: seq<Byte>, t: Table, a: Decoded, d: Decoded)
    requires |h.name| < 127 && |h.value| < 127
    requires Decode(c, b, t) == Some(a) && Decode(c, b + more, t) == Some(d)
    ensures Extends(d, h, |a.headers|, Decode(c, b + (PlainLiteral(h) + more), t))
       <==> a.headers != [] || !StartsWithSizeUpdate(more)
  {
    DecodeContinues(c, b, more, t, true);
    InsertedLiteralDecodes(c, b, h, more, t);
    var start := a.headers == [];
    var z := DecodeBlock(c, more, a.table, start).value;
    assert d.headers == a.headers + z.headers;
    assert d.headers[..|a.headers|] == a.headers && d.headers[|a.headers|..] == z.headers;
    if start {
      StartMatters(c, more, a.table);
    }
    assert a.headers + [h] + z.headers == d.headers[..|a.headers|] + [h] + d.headers[|a.headers|..];
  }

  // ----- recognising that a header was not delivered -----

  /** Past a common beginning, the extended list goes on with the header or as the old list does. */
  lemma NextOfExtended(hs: seq<Header>, n: nat, h: Header, k: nat, r: seq<Header>)
    requires n <= |hs| && k <= |hs| && r == hs[..k] + [h] + hs[k..] && r[..n] == hs[..n]
    ensures n < |r| && (r[n] == h || (n < |hs| && r[n] == hs[n]))
  {
    if k < n {
      var j := k;
      while j < n
        invariant k <= j <= n && r[j] == h
      {
        assert r[j] == r[..n][j] == hs[..n][j] == hs[j];
        assert r[j + 1] == hs[j];
        j := j + 1;
      }
    }
  }

  /** After `n` headers in common the new list has one that is neither `h` nor the old one. */
  predicate PartsAt(was: seq<Header>, now: seq<Header>, n: nat, h: Header) {
    && n <= |was| && n < |now| && was[..n] == now[..n]
    && now[n] != h && (n < |was| ==> now[n] != was[n])
  }

  /** From the cut on, the rest of the block gives other headers than it did. */
  ghost predicate Derailed(before: Option<Decoded>, after: Option<Decoded>, h: Header) {
    before.Some? && (after.Some? ==> exists n :: PartsAt(before.value.headers, after.value.headers, n, h))
  }

  lemma PartedIsNotExtended(d: Decoded, h: Header, r: Decoded, n: nat)
    requires PartsAt(d.headers, r.headers, n, h)
    ensures forall k :: !Extends(d, h, k, Some(r))
  {
    forall k
      ensures !Extends(d, h, k, Some(r))
    {
      if Extends(d, h, k, Some(r)) {
        NextOfExtended(d.headers, n, h, k, r.headers);
      }
    }
  }

  lemma DerailedIsNotDelivered(c: Codec, b: seq<Byte>, x: seq<Byte>, h: Header, t: Table, more: seq<Byte>)
    requires var p := ReadFragment(c, b, t, true);
             Derailed(DecodeBlock(c, p.rest + more, p.table, p.start),
                      DecodeBlock(c, p.rest + (x + more), p.table, p.start), h)
    ensures Completes(c, b, t, more) && !Delivered(c, b, x, h, t, more)
  {
    var p := ReadFragment(c, b, t, true);
    DecodeGoesOn(c, b, more, t, true);
    DecodeGoesOn(c, b, x + more, t, true);
    var was := DecodeBlock(c, p.rest + more, p.table, p.start);
    var now := DecodeBlock(c, p.rest + (x + more), p.table, p.start);
    if now.Some? {
      ListsPart(p.headers, was.value.headers, now.value.headers, h, Decode(c, b + more, t).value,
                Decode(c, b + (x + more), t).value);
    }
  }

  lemma ListsPart(hs: seq<Header>, was: seq<Header>, now: seq<Header>, h: Header, d: Decoded, r: Decoded)
    requires exists n :: PartsAt(was, now, n, h)
    requires d.headers == hs + was && r.headers == hs + now
    ensures forall k :: !Extends(d, h, k, Some(r))
  {
    var n :| PartsAt(was, now, n, h);
    CommonFront(hs, was, now, n, h);
    PartedIsNotExtended(d, h, r, |hs| + n);
  }

  lemma CommonFront(hs: seq<Header>, was: seq<Header>, now: seq<Header>, n: nat, h: Header)
    requires PartsAt(was, now, n, h)
    ensures PartsAt(hs + was, hs + now, |hs| + n, h)
  {
    assert (hs + was)[..|hs| + n] == hs + was[..n] && (hs + now)[..|hs| + n] == hs + now[..n];
  }

  // ----- an integer cut short -----

  /** Its bytes all ask for another one; a zero byte ends it. */
  lemma {:induction false} TailCloses(b: seq<Byte>, z: seq<Byte>) returns (n: nat)
    requires IntTail(b).None?
    ensures IntTail(b + [0]) == Some(Front(n, [])) && IntTail(b + ([0] + z)) == Some(Front(n, z))
  {
    if b == [] {
      n := 0;
      assert b + [0] == [0] && b + ([0] + z) == [0] + z;
      assert ([0] + z)[1..] == z;
    } else {
      var m := TailCloses(b[1..], z);
      n := b[0] - 128 + 128 * m;
      assert (b + [0])[1..] == b[1..] + [0] && (b + ([0] + z))[1..] == b[1..] + ([0] + z);
    }
  }

  /** The value a zero byte gives it, whatever follows. */
  function Closed(b: seq<Byte>, full: nat): nat {
    match DecodeInt(b + [0], full)
    case Some(Front(n, _)) => n
    case None => 0
  }

  lemma IntCloses(b: seq<Byte>, full: nat, z: seq<Byte>)
    requires b != [] && DecodeInt(b, full).None?
    ensures DecodeInt(b + ([0] + z), full) == Some(Front(Closed(b, full), z)) && Closed(b, full) >= full
  {
    var n := TailCloses(b[1..], z);
    assert (b + [0])[1..] == b[1..] + [0] && (b + ([0] + z))[1..] == b[1..] + ([0] + z);
  }

  // ----- a string cut short -----

  function Repeated(v: Byte, n: nat): (b: seq<Byte>)
    ensures |b| == n && forall i :: 0 <= i < n ==> b[i] == v
  {
    seq(n, i => v)
  }

  const LETTER: Byte := 97

  /** `q` is the beginning of a string, not Huffman coded, or nothing of it. */
  predicate CutString(c: Codec, q: seq<Byte>) {
    q == [] || (q[0] < 128 && DecodeString(c, q).None?)
  }

  /** What is asked of the header put in. */
  predicate Distinctive(h: Header) {
    && |h.name| == 14 && |h.value| == 14 && h.name[0] == 120 && h.value[0] == 116
    && 0 !in h.name && 0 !in h.value
  }

  /** These bytes make the beginning the string `s`, whatever comes after. */
  ghost predicate CompletesTo(c: Codec, q: seq<Byte>, z: seq<Byte>, s: seq<Byte>) {
    forall w :: DecodeString(c, q + (z + w)) == Some(Front(s, w))
  }

  /** The literal comes next, or zero padding and then the literal. */
  predicate LiteralAhead(y: seq<Byte>) {
    |y| >= 2 && y[0] == 0 && (y[1] == 14 || y[1] == 0)
  }

  /** With the literal's bytes after the beginning, the string is neither `s` nor one of the header. */
  ghost predicate Diverts(c: Codec, q: seq<Byte>, h: Header, s: seq<Byte>) {
    forall y :: LiteralAhead(y) && DecodeString(c, q + y).Some? ==> Foreign(DecodeString(c, q + y).value.val, s, h)
  }

  predicate Foreign(read: seq<Byte>, s: seq<Byte>, h: Header) {
    read != s && read != h.name && read != h.value
  }

  /** Nothing of the string has come: the zero stands for the empty one. */
  lemma NoString(c: Codec, h: Header) returns (z: seq<Byte>, s: seq<Byte>)
    requires Distinctive(h)
    ensures CompletesTo(c, [], z, s) && Diverts(c, [], h, s)
  {
    z, s := [1, LETTER], [LETTER];
    forall w
      ensures DecodeString(c, [] + (z + w)) == Some(Front(s, w))
    {
      var b := [] + (z + w);
      assert b == [1] + (s + w);
      assert b[1..] == s + w && (s + w)[1..] == w && (s + w)[..1] == s;
      assert DecodeInt(b, 127) == Some(Front(1, s + w));
    }
    forall y | LiteralAhead(y) && DecodeString(c, [] + y).Some?
      ensures DecodeString(c, [] + y).value.val == []
    {
      assert [] + y == y;
      assert DecodeInt(y, 127) == Some(Front(0, y[1..]));
    }
  }

  /** The length breaks off: the zero ends it, and the byte after it becomes the first character. */
  lemma NoLength(c: Codec, q: seq<Byte>, h: Header) returns (z: seq<Byte>, s: seq<Byte>)
    requires q != [] && q[0] < 128 && DecodeInt(q, 127).None? && Distinctive(h)
    ensures CompletesTo(c, q, z, s) && Diverts(c, q, h, s)
  {
    var n := Closed(q, 127);
    s := Repeated(LETTER, n);
    z := [0] + s;
    forall w
      ensures DecodeString(c, q + (z + w)) == Some(Front(s, w))
    {
      Associate([0], s, w);
      IntCloses(q, 127, s + w);
      assert (s + w)[..n] == s && (s + w)[n..] == w;
    }
    IntCloses(q, 127, []);
    forall y | LiteralAhead(y) && DecodeString(c, q + y).Some?
      ensures Foreign(DecodeString(c, q + y).value.val, s, h)
    {
      IntCloses(q, 127, y[1..]);
      assert [0] + y[1..] == y;
      assert DecodeString(c, q + y).value.val == y[1..][..n];
      assert DecodeString(c, q + y).value.val[0] == y[1];
    }
  }

  /** The characters break off: the zero becomes one of them. */
  lemma NoCharacters(c: Codec, q: seq<Byte>, n: nat, part: seq<Byte>, h: Header) returns (z: seq<Byte>, s: seq<Byte>)
    requires q != [] && q[0] < 128 && DecodeInt(q, 127) == Some(Front(n, part)) && |part| < n && Distinctive(h)
    ensures CompletesTo(c, q, z, s) && Diverts(c, q, h, s)
  {
    z := Repeated(LETTER, n - |part|);
    s := part + z;
    forall w
      ensures DecodeString(c, q + (z + w)) == Some(Front(s, w))
    {
      IntStable(q, z + w, 127);
      Associate(part, z, w);
      assert (s + w)[..n] == s && (s + w)[n..] == w;
    }
    forall y | LiteralAhead(y) && DecodeString(c, q + y).Some?
      ensures Foreign(DecodeString(c, q + y).value.val, s, h)
    {
      IntStable(q, y, 127);
      var read := DecodeString(c, q + y).value.val;
      assert read == (part + y)[..n];
      assert read[|part|] == 0 && s[|part|] == LETTER;
    }
  }

  lemma CutStringDiverts(c: Codec, q: seq<Byte>, h: Header) returns (z: seq<Byte>, s: seq<Byte>)
    requires CutString(c, q) && Distinctive(h)
    ensures CompletesTo(c, q, z, s) && Diverts(c, q, h, s)
  {
    if q == [] {
      z, s := NoString(c, h);
    } else if DecodeInt(q, 127).None? {
      z, s := NoLength(c, q, h);
    } else {
      var Front(n, part) := DecodeInt(q, 127).value;
      z, s := NoCharacters(c, q, n, part, h);
    }
  }

  // ----- a field cut short -----

  predicate IsLiteral(p: seq<Byte>) {
    p != [] && (p[0] < 32 || 64 <= p[0] < 128)
  }

  /** Values that fit the prefix of a literal's index. */
  function IndexFull(p: seq<Byte>): nat
    requires IsLiteral(p)
  {
    if p[0] >= 64 then 63 else 15
  }

  /** The string a decoder is reading when a literal breaks off after its index: the name or the value. */
  function PendingString(c: Codec, p: seq<Byte>): Option<seq<Byte>> {
    if !IsLiteral(p) || DecodeInt(p, IndexFull(p)).None? then None
    else
      var Front(index, q) := DecodeInt(p, IndexFull(p)).value;
      if index != 0 then Some(q)
      else
        match DecodeString(c, q)
        case None => Some(q)
        case Some(Front(_, rest)) => Some(rest)
  }

  /** The field is cut within a Huffman-coded string. */
  predicate CutInHuffman(c: Codec, p: seq<Byte>) {
    PendingString(c, p).Some? && PendingString(c, p).value != [] && PendingString(c, p).value[0] >= 128
  }

  /**
   * What is asked of the Huffman code then: no two codes stand for the same string, as section 5.2 of
   * RFC 7541 has it, and the codes of the header are short and have no zero byte.
   */
  ghost predicate ProperCode(c: Codec, h: Header) {
    && (forall a, b :: c.huffman(a).Some? && c.huffman(a) == c.huffman(b) ==> a == b)
    && (forall a :: c.huffman(a) == Some(h.name) || c.huffman(a) == Some(h.value) ==> |a| < 127 && 0 !in a)
  }

  /** The rest does not go on as a zero byte does: it gives the length, or the next byte of the code, another value. */
  predicate GoesOnOtherwise(q: seq<Byte>, rest: seq<Byte>) {
    if DecodeInt(q, 127).None? then
      DecodeInt(q + rest, 127).Some? && DecodeInt(q + rest, 127).value.val != Closed(q, 127)
    else rest != [] && rest[0] != 0
  }

  /** The rest `some` of a block can serve as the one with which the header is lost. */
  ghost predicate Usable(c: Codec, p: seq<Byte>, h: Header, some: seq<Byte>) {
    CutInHuffman(c, p) ==> ProperCode(c, h) && GoesOnOtherwise(PendingString(c, p).value, some)
  }

  // ----- what is put in -----

  /** No such list starts with the header. */
  predicate Loses(d: Option<Decoded>, h: Header) {
    d.Some? ==> d.value.headers != [] && d.value.headers[0] != h
  }

  /**
   * The bytes put in: a zero first; what follows it, read as a field or as a string, is not the
   * header or its value.
   */
  ghost predicate Spoils(c: Codec, x: seq<Byte>, h: Header) {
    && LiteralAhead(x)
    && (forall t, start :: Loses(DecodeBlock(c, x[1..] + [0], t, start), h))
    && (forall z :: DecodeString(c, x[1..] + z).Some? ==>
          DecodeString(c, x[1..] + z).value.val != [LETTER] && DecodeString(c, x[1..] + z).value.val != h.value)
  }

  /** Read as a field of their own, the literal's bytes after its zero ask for a value of 120 bytes. */
  lemma AfterZeroFails(c: Codec, h: Header, b: seq<Byte>, t: Table, start: bool)
    requires Distinctive(h) && b == PlainString(h.name) + PlainString(h.value) + [0]
    ensures DecodeBlock(c, b, t, start) == None
  {
    var rest := h.name + (PlainString(h.value) + [0]);
    assert b == [14] + rest && b[1..] == rest;
    assert DecodeInt(b, 15) == Some(Front(14, rest));
    assert DecodeInt(rest, 127) == Some(Front(120, rest[1..]));
    assert DecodeString(c, rest) == None;
    assert DecodeLiteral(c, b, 15, t) == None;
  }

  lemma LiteralSpoils(c: Codec, h: Header)
    requires Distinctive(h)
    ensures Spoils(c, PlainLiteral(h), h)
  {
    var x := PlainLiteral(h);
    assert x[1..] == PlainString(h.name) + PlainString(h.value);
    forall t, start
      ensures Loses(DecodeBlock(c, x[1..] + [0], t, start), h)
    {
      AfterZeroFails(c, h, x[1..] + [0], t, start);
    }
    forall z
      ensures DecodeString(c, x[1..] + z) == Some(Front(h.name, PlainString(h.value) + z))
    {
      Associate(PlainString(h.name), PlainString(h.value), z);
      PlainStringDecodes(c, h.name, PlainString(h.value) + z);
    }
    assert h.name[0] != h.value[0];
  }

  /** As many bytes of zero padding and the literal together as the literal has. */
  function ZeroSpill(pad: nat, h: Header): (x: seq<Byte>)
    requires |h.name| < 127 && |h.value| < 127
    ensures |x| == |PlainLiteral(h)|
  {
    (Repeated(0, pad) + PlainLiteral(h))[..|PlainLiteral(h)|]
  }

  /** A block that goes on with two zero bytes goes on with a field of empty name. */
  lemma EmptyNameDecoded(c: Codec, z: seq<Byte>, t: Table, start: bool)
    requires |z| >= 2 && z[0] == 0 && z[1] == 0
    ensures var d := DecodeBlock(c, z, t, start);
            d.Some? ==> d.value.headers != [] && d.value.headers[0].name == []
  {
    assert DecodeInt(z, 15) == Some(Front(0, z[1..]));
    assert DecodeInt(z[1..], 127) == Some(Front(0, z[1..][1..]));
    assert DecodeString(c, z[1..]).value.val == [];
  }

  /**
   * After a single zero of padding comes the whole literal but for
   * its last byte, in place of which the rest gives a zero.
   */
  lemma AlmostLiteral(c: Codec, h: Header, t: Table, start: bool)
    requires Distinctive(h)
    ensures Loses(DecodeBlock(c, ZeroSpill(1, h)[1..] + [0], t, start), h)
  {
    var g := Header(h.name, h.value[..13] + [0]);
    assert ZeroSpill(1, h)[1..] + [0] == PlainLiteral(g) + [];
    LeadingLiteralDecodes(c, g, [], t, start);
    assert g.value[13] == 0 && h.value[13] in h.value;
  }

  lemma ZerosSpoil(c: Codec, pad: nat, h: Header)
    requires Distinctive(h) && pad > 0
    ensures Spoils(c, ZeroSpill(pad, h), h)
  {
    var x := ZeroSpill(pad, h);
    assert x[0] == 0 && x[1] == 0;
    forall t, start
      ensures Loses(DecodeBlock(c, x[1..] + [0], t, start), h)
    {
      if pad == 1 {
        AlmostLiteral(c, h, t, start);
      } else {
        assert x[2] == 0;
        EmptyNameDecoded(c, x[1..] + [0], t, start);
      }
    }
    forall z
      ensures DecodeString(c, x[1..] + z) == Some(Front([], (x[1..] + z)[1..]))
    {
      assert DecodeInt(x[1..] + z, 127) == Some(Front(0, (x[1..] + z)[1..]));
    }
  }

  /** What becomes of the rest of a block that breaks off within the field `p`. */
  ghost predicate DerailsWith(c: Codec, p: seq<Byte>, t: Table, start: bool, x: seq<Byte>, h: Header, more: seq<Byte>) {
    Derailed(DecodeBlock(c, p + more, t, start), DecodeBlock(c, p + (x + more), t, start), h)
  }

  predicate BreaksOff(c: Codec, p: seq<Byte>, t: Table, start: bool) {
    p != [] && DecodeField(c, p, t, start).None?
  }

  /** A zero byte ends the integer with which `x` goes on. */
  lemma IntTakesZero(p: seq<Byte>, full: nat, x: seq<Byte>, more: seq<Byte>)
    requires p != [] && DecodeInt(p, full).None? && x != [] && x[0] == 0
    ensures DecodeInt(p + (x + more), full) == Some(Front(Closed(p, full), x[1..] + more))
  {
    assert x + more == [0] + (x[1..] + more);
    IntCloses(p, full, x[1..] + more);
  }

  lemma FirstParts(was: Option<Decoded>, now: Option<Decoded>, h: Header)
    requires was.Some? && Loses(now, h)
    requires now.Some? ==> was.value.headers == [] || was.value.headers[0] != now.value.headers[0]
    ensures Derailed(was, now, h)
  {
    if now.Some? {
      assert PartsAt(was.value.headers, now.value.headers, 0, h);
    }
  }

  lemma CutIndexedField(c: Codec, p: seq<Byte>, t: Table, start: bool, x: seq<Byte>, h: Header, some: seq<Byte>)
    returns (more: seq<Byte>)
    requires BreaksOff(c, p, t, start) && p[0] >= 128 && Spoils(c, x, h)
    requires DecodeBlock(c, p + some, t, start).Some?
    ensures DerailsWith(c, p, t, start, x, h, more)
  {
    if DecodeInt(p, 127).Some? {
      IntStable(p, some, 127);
      assert false;
    }
    var indexed := Lookup(c, t, Closed(p, 127));
    more := if indexed.None? then some else [0];
    IntTakesZero(p, 127, x, more);
    if indexed.Some? {
      assert p + [0] == p + ([0] + []);
      IntCloses(p, 127, []);
      var after := DecodeBlock(c, x[1..] + [0], t, false);
      assert Loses(after, h);
      if after.Some? {
        assert PartsAt([indexed.value] + [], [indexed.value] + after.value.headers, 1, h);
      }
    }
  }

  /** What a size update closed by a zero byte does, and the block after it. */
  lemma SizeUpdateCloses(c: Codec, p: seq<Byte>, t: Table, start: bool, y: seq<Byte>, z: seq<Byte>)
    requires BreaksOff(c, p, t, start) && 32 <= p[0] < 64 && DecodeInt(p, 31).None?
    requires DecodeInt(p + y, 31) == Some(Front(Closed(p, 31), z))
    ensures var size := Closed(p, 31);
            DecodeBlock(c, p + y, t, start)
            == if !start || size > c.limit then None else DecodeBlock(c, z, Table(Evict(t.entries, size), size), start)
  {
    assert (p + y)[0] == p[0];
    var size := Closed(p, 31);
    PrependNothing(DecodeBlock(c, z, Table(Evict(t.entries, size), size), start));
  }

  lemma OnlyAtStart(c: Codec, p: seq<Byte>, t: Table, start: bool, some: seq<Byte>)
    requires p != [] && 32 <= p[0] < 64 && DecodeBlock(c, p + some, t, start).Some?
    ensures start
  {
    assert (p + some)[0] == p[0];
  }

  lemma CutSizeUpdate(c: Codec, p: seq<Byte>, t: Table, start: bool, x: seq<Byte>, h: Header, some: seq<Byte>)
    returns (more: seq<Byte>)
    requires BreaksOff(c, p, t, start) && 32 <= p[0] < 64 && Spoils(c, x, h)
    requires DecodeBlock(c, p + some, t, start).Some?
    ensures DerailsWith(c, p, t, start, x, h, more)
  {
    LengthIsCut(c, p, t, start, some);
    OnlyAtStart(c, p, t, start, some);
    var size := Closed(p, 31);
    more := if size > c.limit then some else [0];
    IntTakesZero(p, 31, x, more);
    SizeUpdateCloses(c, p, t, start, x + more, x[1..] + more);
    if size <= c.limit {
      assert p + [0] == p + ([0] + []);
      IntCloses(p, 31, []);
      SizeUpdateCloses(c, p, t, start, [0], []);
      assert Loses(DecodeBlock(c, x[1..] + [0], Table(Evict(t.entries, size), size), start), h);
      FirstParts(DecodeBlock(c, p + more, t, start), DecodeBlock(c, p + (x + more), t, start), h);
    }
  }

  lemma LengthIsCut(c: Codec, p: seq<Byte>, t: Table, start: bool, some: seq<Byte>)
    requires BreaksOff(c, p, t, start) && 32 <= p[0] < 64 && DecodeBlock(c, p + some, t, start).Some?
    ensures DecodeInt(p, 31).None?
  {
    if DecodeInt(p, 31).Some? {
      IntStable(p, some, 31);
    }
  }

  /** The header a block starts with when a literal is at its front. */
  lemma LiteralGivesFirst(c: Codec, b: seq<Byte>, t: Table, start: bool)
    requires IsLiteral(b)
    ensures var l, d := DecodeLiteral(c, b, IndexFull(b), t), DecodeBlock(c, b, t, start);
            && (l.None? ==> d.None?)
            && (l.Some? && d.Some? ==> d.value.headers != [] && d.value.headers[0] == l.value.val)
            && (l.Some? && l.value.rest == [] ==> d.Some?)
  {
  }

  /** The completed literal is one header, and with `x` in between the first header is another. */
  lemma LiteralDerails(c: Codec, p: seq<Byte>, t: Table, start: bool, x: seq<Byte>, h: Header, more: seq<Byte>)
    requires IsLiteral(p)
    requires var full := IndexFull(p);
             var was, now := DecodeLiteral(c, p + more, full, t), DecodeLiteral(c, p + (x + more), full, t);
             && was.Some? && (was.value.rest == [] || DecodeBlock(c, p + more, t, start).Some?)
             && (now.Some? ==> now.value.val != was.value.val && now.value.val != h)
    ensures DerailsWith(c, p, t, start, x, h, more)
  {
    LiteralGivesFirst(c, p + more, t, start);
    LiteralGivesFirst(c, p + (x + more), t, start);
    FirstParts(DecodeBlock(c, p + more, t, start), DecodeBlock(c, p + (x + more), t, start), h);
  }

  // The index breaks off: a zero byte ends it in both cases, then what is put in gives another value.

  lemma IndexCompleted(c: Codec, p: seq<Byte>, full: nat, t: Table)
    requires p != [] && DecodeInt(p, full).None? && full > 0 && Lookup(c, t, Closed(p, full)).Some?
    ensures DecodeLiteral(c, p + [0, 1, LETTER], full, t)
         == Some(Front(Header(Lookup(c, t, Closed(p, full)).value.name, [LETTER]), []))
  {
    assert p + [0, 1, LETTER] == p + ([0] + (PlainString([LETTER]) + []));
    IntCloses(p, full, PlainString([LETTER]) + []);
    PlainStringDecodes(c, [LETTER], []);
  }

  lemma IndexTaken(c: Codec, p: seq<Byte>, full: nat, t: Table, x: seq<Byte>, h: Header, more: seq<Byte>)
    requires p != [] && DecodeInt(p, full).None? && full > 0 && Spoils(c, x, h)
    ensures var l := DecodeLiteral(c, p + (x + more), full, t);
            l.Some? ==>
              && Lookup(c, t, Closed(p, full)).Some?
              && l.value.val.value != [LETTER] && l.value.val.value != h.value
  {
    IntTakesZero(p, full, x, more);
    IntCloses(p, full, []);
    assert DecodeString(c, x[1..] + more).Some? ==>
             DecodeString(c, x[1..] + more).value.val != [LETTER] &&
               DecodeString(c, x[1..] + more).value.val != h.value;
  }

  lemma CutIndex(c: Codec, p: seq<Byte>, t: Table, start: bool, x: seq<Byte>, h: Header, some: seq<Byte>)
    returns (more: seq<Byte>)
    requires IsLiteral(p) && DecodeInt(p, IndexFull(p)).None? && Spoils(c, x, h)
    requires DecodeBlock(c, p + some, t, start).Some?
    ensures DerailsWith(c, p, t, start, x, h, more)
  {
    if Lookup(c, t, Closed(p, IndexFull(p))).None? {
      more := some;
      IndexTaken(c, p, IndexFull(p), t, x, h, more);
      LiteralGivesFirst(c, p + (x + more), t, start);
    } else {
      more := [0, 1, LETTER];
      IndexTaken(c, p, IndexFull(p), t, x, h, more);
      IndexCompleted(c, p, IndexFull(p), t);
      LiteralDerails(c, p, t, start, x, h, more);
    }
  }

  // The name breaks off, or nothing of it has come.

  lemma NoMoreThanZero(c: Codec)
    ensures DecodeString(c, [0]) == Some(Front([], []))
  {
  }

  lemma NameCompleted(c: Codec, p: seq<Byte>, full: nat, t: Table, q: seq<Byte>, z: seq<Byte>, s: seq<Byte>)
    requires DecodeInt(p, full) == Some(Front(0, q)) && CompletesTo(c, q, z, s)
    ensures DecodeLiteral(c, p + (z + [0]), full, t) == Some(Front(Header(s, []), []))
  {
    var y := z + [0];
    assert DecodeString(c, q + y) == Some(Front(s, [0]));
    IntStable(p, y, full);
    NoMoreThanZero(c);
  }

  lemma NameTaken(c: Codec, p: seq<Byte>, full: nat, t: Table, q: seq<Byte>, h: Header, s: seq<Byte>, y: seq<Byte>)
    requires DecodeInt(p, full) == Some(Front(0, q)) && Diverts(c, q, h, s) && LiteralAhead(y)
    ensures var l := DecodeLiteral(c, p + y, full, t);
            l.Some? ==> Foreign(l.value.val.name, s, h)
  {
    IntStable(p, y, full);
  }

  lemma NameDiverts(c: Codec, p: seq<Byte>, full: nat, t: Table, q: seq<Byte>, h: Header, x: seq<Byte>)
    returns (more: seq<Byte>, s: seq<Byte>)
    requires DecodeInt(p, full) == Some(Front(0, q)) && CutString(c, q) && Distinctive(h) && LiteralAhead(x)
    ensures DecodeLiteral(c, p + more, full, t) == Some(Front(Header(s, []), []))
    ensures var l := DecodeLiteral(c, p + (x + more), full, t);
            l.Some? ==> Foreign(l.value.val.name, s, h)
  {
    var z: seq<Byte>;
    z, s := CutStringDiverts(c, q, h);
    more := z + [0];
    NameCompleted(c, p, full, t, q, z, s);
    NameTaken(c, p, full, t, q, h, s, x + more);
  }

  lemma CutName(c: Codec, p: seq<Byte>, t: Table, start: bool, x: seq<Byte>, h: Header, q: seq<Byte>)
    returns (more: seq<Byte>)
    requires IsLiteral(p) && DecodeInt(p, IndexFull(p)) == Some(Front(0, q)) && CutString(c, q)
    requires Distinctive(h) && LiteralAhead(x)
    ensures DerailsWith(c, p, t, start, x, h, more)
  {
    var s: seq<Byte>;
    more, s := NameDiverts(c, p, IndexFull(p), t, q, h, x);
    LiteralDerails(c, p, t, start, x, h, more);
  }

  // The value breaks off, or nothing of it has come.

  /** A literal decoded up to its value: what is known of it. */
  predicate UpToValue(c: Codec, p: seq<Byte>, full: nat, t: Table, name: seq<Byte>, q: seq<Byte>) {
    var index := DecodeInt(p, full);
    index.Some? && DecodeName(c, index.value.rest, index.value.val, t) == Some(Front(name, q))
  }

  lemma UpToValueStable(c: Codec, p: seq<Byte>, full: nat, t: Table, name: seq<Byte>, q: seq<Byte>, y: seq<Byte>)
    requires UpToValue(c, p, full, t, name, q)
    ensures UpToValue(c, p + y, full, t, name, q + y)
  {
    var Front(index, r) := DecodeInt(p, full).value;
    IntStable(p, y, full);
    NameStable(c, r, y, index, t);
  }

  lemma ValueCompleted(c: Codec, p: seq<Byte>, full: nat, t: Table, name: seq<Byte>, q: seq<Byte>, z: seq<Byte>,
                       s: seq<Byte>)
    requires UpToValue(c, p, full, t, name, q) && CompletesTo(c, q, z, s)
    ensures DecodeLiteral(c, p + z, full, t) == Some(Front(Header(name, s), []))
  {
    UpToValueStable(c, p, full, t, name, q, z);
    assert DecodeString(c, q + (z + [])) == Some(Front(s, []));
    assert z + [] == z;
  }

  lemma ValueTaken(c: Codec, p: seq<Byte>, full: nat, t: Table, name: seq<Byte>, q: seq<Byte>, h: Header,
                   s: seq<Byte>, y: seq<Byte>)
    requires UpToValue(c, p, full, t, name, q) && Diverts(c, q, h, s) && LiteralAhead(y)
    ensures var l := DecodeLiteral(c, p + y, full, t);
            l.Some? ==> Foreign(l.value.val.value, s, h)
  {
    UpToValueStable(c, p, full, t, name, q, y);
  }

  lemma ValueDiverts(c: Codec, p: seq<Byte>, full: nat, t: Table, name: seq<Byte>, q: seq<Byte>, h: Header,
                     x: seq<Byte>)
    returns (more: seq<Byte>, s: seq<Byte>)
    requires UpToValue(c, p, full, t, name, q) && CutString(c, q) && Distinctive(h) && LiteralAhead(x)
    ensures DecodeLiteral(c, p + more, full, t) == Some(Front(Header(name, s), []))
    ensures var l := DecodeLiteral(c, p + (x + more), full, t);
            l.Some? ==> Foreign(l.value.val.value, s, h)
  {
    more, s := CutStringDiverts(c, q, h);
    ValueCompleted(c, p, full, t, name, q, more, s);
    ValueTaken(c, p, full, t, name, q, h, s, x + more);
  }

  lemma CutValue(c: Codec, p: seq<Byte>, t: Table, start: bool, x: seq<Byte>, h: Header, name: seq<Byte>, q: seq<Byte>)
    returns (more: seq<Byte>)
    requires IsLiteral(p) && UpToValue(c, p, IndexFull(p), t, name, q) && CutString(c, q)
    requires Distinctive(h) && LiteralAhead(x)
    ensures DerailsWith(c, p, t, start, x, h, more)
  {
    var s: seq<Byte>;
    more, s := ValueDiverts(c, p, IndexFull(p), t, name, q, h, x);
    LiteralDerails(c, p, t, start, x, h, more);
  }

  // A Huffman-coded string breaks off: the zero makes its code another, and so the string.

  /** The code of the string after `q`, if all of it has come. */
  function CodeOf(q: seq<Byte>): Option<seq<Byte>> {
    match DecodeInt(q, 127)
    case None => None
    case Some(Front(n, rest)) => if n > |rest| then None else Some(rest[..n])
  }

  lemma CodedString(c: Codec, q: seq<Byte>)
    requires q != [] && q[0] >= 128 && DecodeString(c, q).Some?
    ensures CodeOf(q).Some? && c.huffman(CodeOf(q).value) == Some(DecodeString(c, q).value.val)
  {
  }

  /** A string that the rest completes breaks off within its code. */
  lemma CodeIsCut(c: Codec, q: seq<Byte>, some: seq<Byte>)
    requires DecodeString(c, q).None? && DecodeString(c, q + some).Some? && DecodeInt(q, 127).Some?
    ensures |DecodeInt(q, 127).value.rest| < DecodeInt(q, 127).value.val
  {
    var Front(n, part) := DecodeInt(q, 127).value;
    IntStable(q, some, 127);
    FrontOfSum(part, some, n);
  }

  lemma FrontOfSum(a: seq<Byte>, b: seq<Byte>, n: nat)
    ensures n <= |a| ==> (a + b)[..n] == a[..n]
  {
  }

  lemma CodesDiffer(c: Codec, q: seq<Byte>, x: seq<Byte>, some: seq<Byte>)
    requires q != [] && q[0] >= 128 && DecodeString(c, q).None? && LiteralAhead(x) && GoesOnOtherwise(q, some)
    requires DecodeString(c, q + some).Some? && CodeOf(q + some).Some? && CodeOf(q + (x + some)).Some?
    ensures CodeOf(q + some) != CodeOf(q + (x + some))
    ensures |CodeOf(q + (x + some)).value| >= 127 || 0 in CodeOf(q + (x + some)).value
  {
    if DecodeInt(q, 127).None? {
      IntTakesZero(q, 127, x, some);
      IntCloses(q, 127, []);
    } else {
      var Front(n, part) := DecodeInt(q, 127).value;
      IntStable(q, some, 127);
      IntStable(q, x + some, 127);
      CodeIsCut(c, q, some);
      var was, now := (part + some)[..n], (part + (x + some))[..n];
      assert was[|part|] == some[0] && now[|part|] == 0;
    }
  }

  lemma CodedStringDiverts(c: Codec, q: seq<Byte>, h: Header, x: seq<Byte>, some: seq<Byte>)
    requires q != [] && q[0] >= 128 && DecodeString(c, q).None? && LiteralAhead(x)
    requires ProperCode(c, h) && GoesOnOtherwise(q, some) && DecodeString(c, q + some).Some?
    ensures DecodeString(c, q + (x + some)).Some? ==>
              Foreign(DecodeString(c, q + (x + some)).value.val, DecodeString(c, q + some).value.val, h)
  {
    CodedString(c, q + some);
    if DecodeString(c, q + (x + some)).Some? {
      CodedString(c, q + (x + some));
      CodesDiffer(c, q, x, some);
    }
  }

  lemma NameRead(c: Codec, p: seq<Byte>, full: nat, t: Table, q: seq<Byte>, y: seq<Byte>)
    requires DecodeInt(p, full) == Some(Front(0, q))
    ensures var l, s := DecodeLiteral(c, p + y, full, t), DecodeString(c, q + y);
            l.Some? ==> s.Some? && l.value.val.name == s.value.val
  {
    IntStable(p, y, full);
  }

  lemma ValueRead(c: Codec, p: seq<Byte>, full: nat, t: Table, name: seq<Byte>, q: seq<Byte>, y: seq<Byte>)
    requires UpToValue(c, p, full, t, name, q)
    ensures var l, s := DecodeLiteral(c, p + y, full, t), DecodeString(c, q + y);
            l.Some? ==> s.Some? && l.value.val.value == s.value.val
  {
    UpToValueStable(c, p, full, t, name, q, y);
  }

  lemma CutCodedName(c: Codec, p: seq<Byte>, t: Table, start: bool, x: seq<Byte>, h: Header, q: seq<Byte>,
                     some: seq<Byte>)
    requires IsLiteral(p) && DecodeInt(p, IndexFull(p)) == Some(Front(0, q)) && DecodeBlock(c, p + some, t, start).Some?
    requires q != [] && q[0] >= 128 && DecodeString(c, q).None? && LiteralAhead(x)
    requires ProperCode(c, h) && GoesOnOtherwise(q, some)
    ensures DerailsWith(c, p, t, start, x, h, some)
  {
    LiteralGivesFirst(c, p + some, t, start);
    NameRead(c, p, IndexFull(p), t, q, some);
    NameRead(c, p, IndexFull(p), t, q, x + some);
    CodedStringDiverts(c, q, h, x, some);
    LiteralDerails(c, p, t, start, x, h, some);
  }

  lemma CutCodedValue(c: Codec, p: seq<Byte>, t: Table, start: bool, x: seq<Byte>, h: Header, name: seq<Byte>,
                      q: seq<Byte>, some: seq<Byte>)
    requires IsLiteral(p) && UpToValue(c, p, IndexFull(p), t, name, q) && DecodeBlock(c, p + some, t, start).Some?
    requires q != [] && q[0] >= 128 && DecodeString(c, q).None? && LiteralAhead(x)
    requires ProperCode(c, h) && GoesOnOtherwise(q, some)
    ensures DerailsWith(c, p, t, start, x, h, some)
  {
    LiteralGivesFirst(c, p + some, t, start);
    ValueRead(c, p, IndexFull(p), t, name, q, some);
    ValueRead(c, p, IndexFull(p), t, name, q, x + some);
    CodedStringDiverts(c, q, h, x, some);
    LiteralDerails(c, p, t, start, x, h, some);
  }

  lemma CutCodedString(c: Codec, p: seq<Byte>, t: Table, start: bool, x: seq<Byte>, h: Header, some: seq<Byte>)
    requires BreaksOff(c, p, t, start) && CutInHuffman(c, p) && LiteralAhead(x)
    requires DecodeBlock(c, p + some, t, start).Some? && Usable(c, p, h, some)
    ensures DerailsWith(c, p, t, start, x, h, some)
  {
    var Front(index, r) := DecodeInt(p, IndexFull(p)).value;
    if index == 0 && DecodeString(c, r).None? {
      CutCodedName(c, p, t, start, x, h, r, some);
    } else {
      NameIsKnown(c, p, t, start, index, r, some);
      var Front(name, q) := DecodeName(c, r, index, t).value;
      CutCodedValue(c, p, t, start, x, h, name, q, some);
    }
  }

  /** Any field cut short has a completion with which the header is lost. */
  lemma CutFieldDerails(c: Codec, p: seq<Byte>, t: Table, start: bool, x: seq<Byte>, h: Header, some: seq<Byte>)
    returns (more: seq<Byte>)
    requires BreaksOff(c, p, t, start) && Distinctive(h) && Spoils(c, x, h)
    requires DecodeBlock(c, p + some, t, start).Some? && Usable(c, p, h, some)
    ensures DerailsWith(c, p, t, start, x, h, more)
  {
    if p[0] >= 128 {
      more := CutIndexedField(c, p, t, start, x, h, some);
    } else if 32 <= p[0] < 64 {
      more := CutSizeUpdate(c, p, t, start, x, h, some);
    } else if DecodeInt(p, IndexFull(p)).None? {
      more := CutIndex(c, p, t, start, x, h, some);
    } else if CutInHuffman(c, p) {
      more := some;
      CutCodedString(c, p, t, start, x, h, some);
    } else {
      var Front(index, r) := DecodeInt(p, IndexFull(p)).value;
      if index == 0 && DecodeString(c, r).None? {
        more := CutName(c, p, t, start, x, h, r);
      } else {
        NameIsKnown(c, p, t, start, index, r, some);
        var Front(name, q) := DecodeName(c, r, index, t).value;
        more := CutValue(c, p, t, start, x, h, name, q);
      }
    }
  }

  lemma NameIsKnown(c: Codec, p: seq<Byte>, t: Table, start: bool, index: nat, r: seq<Byte>, some: seq<Byte>)
    requires IsLiteral(p) && DecodeInt(p, IndexFull(p)) == Some(Front(index, r))
    requires index == 0 ==> DecodeString(c, r).Some?
    requires BreaksOff(c, p, t, start) && DecodeBlock(c, p + some, t, start).Some?
    ensures DecodeName(c, r, index, t).Some? && DecodeString(c, DecodeName(c, r, index, t).value.rest).None?
  {
    IntStable(p, some, IndexFull(p));
    LiteralGivesFirst(c, p + some, t, start);
  }

  // ----- safe fragments -----

  /** A block that sets the table to size 0, and nothing else. */
  lemma LateSizeUpdate(c: Codec, t: Table)
    ensures DecodeBlock(c, [32], t, true).Some? && DecodeBlock(c, [32], t, false).None?
  {
    assert DecodeInt([32], 31) == Some(Front(0, []));
  }

  /** A fragment cut within a field is not safe. */
  lemma CutIsUnsafe(c: Codec, b: seq<Byte>, x: seq<Byte>, h: Header, t: Table, some: seq<Byte>)
    requires Distinctive(h) && Spoils(c, x, h) && Completes(c, b, t, some)
    requires ReadFragment(c, b, t, true).rest != [] && Usable(c, ReadFragment(c, b, t, true).rest, h, some)
    ensures !Safe(c, b, x, h, t)
  {
    var p := ReadFragment(c, b, t, true);
    FragmentIsWhole(c, b, t, true);
    DecodeGoesOn(c, b, some, t, true);
    var more := CutFieldDerails(c, p.rest, p.table, p.start, x, h, some);
    DerailedIsNotDelivered(c, b, x, h, t, more);
  }

  /**
   * A fragment that some rest completes is safe for every rest exactly when it ends where a field
   * ends and a header was decoded from it.
   */
  lemma SafeExactly(c: Codec, b: seq<Byte>, h: Header, t: Table, some: seq<Byte>)
    requires Distinctive(h) && Completes(c, b, t, some) && Usable(c, ReadFragment(c, b, t, true).rest, h, some)
    ensures Safe(c, b, PlainLiteral(h), h, t) <==> Decode(c, b, t).Some? && Decode(c, b, t).value.headers != []
  {
    var p, x := ReadFragment(c, b, t, true), PlainLiteral(h);
    FragmentIsWhole(c, b, t, true);
    if p.rest != [] {
      LiteralSpoils(c, h);
      CutIsUnsafe(c, b, x, h, t, some);
    } else if p.headers == [] {
      DecodeGoesOn(c, b, [32], t, true);
      assert [] + [32] == [32];
      LateSizeUpdate(c, p.table);
      InsertedLiteralDecodes(c, b, h, [32], t);
      assert Completes(c, b, t, [32]) && !Delivered(c, b, x, h, t, [32]);
    } else {
      forall more | Completes(c, b, t, more)
        ensures Delivered(c, b, x, h, t, more)
      {
        InsertedExactly(c, b, h, more, t, Decode(c, b, t).value, Decode(c, b + more, t).value);
      }
    }
  }

  /** At a field boundary zero padding gives a field of empty name in place of the header. */
  lemma ZerosAtBoundary(c: Codec, b: seq<Byte>, pad: nat, h: Header, t: Table, more: seq<Byte>)
    requires |h.name| < 127 && |h.value| < 127 && pad > 0 && Decode(c, b, t).Some?
    ensures var n, r := |Decode(c, b, t).value.headers|, Decode(c, b + (ZeroSpill(pad, h) + more), t);
            r.Some? ==> n < |r.value.headers| && r.value.headers[n].name == []
  {
    var a, x := Decode(c, b, t).value, ZeroSpill(pad, h);
    assert x[0] == 0 && x[1] == 0;
    DecodeContinues(c, b, x + more, t, true);
    EmptyNameDecoded(c, x + more, a.table, a.headers == []);
  }

  /** With zero padding before the literal no fragment is safe. */
  lemma ZerosAreUnsafe(c: Codec, b: seq<Byte>, pad: nat, h: Header, t: Table, some: seq<Byte>)
    requires Distinctive(h) && pad > 0
    requires Completes(c, b, t, some) && Usable(c, ReadFragment(c, b, t, true).rest, h, some)
    ensures !Safe(c, b, ZeroSpill(pad, h), h, t)
  {
    var p, x := ReadFragment(c, b, t, true), ZeroSpill(pad, h);
    FragmentIsWhole(c, b, t, true);
    if p.rest != [] {
      ZerosSpoil(c, pad, h);
      CutIsUnsafe(c, b, x, h, t, some);
    } else {
      ZerosAtBoundary(c, b, pad, h, t, []);
      assert b + [] == b && Completes(c, b, t, []);
      var d, r := Decode(c, b + [], t).value, Decode(c, b + (x + []), t);
      if r.Some? {
        DecodeContinues(c, b, x + [], t, true);
        PartedIsNotExtended(d, h, r.value, |d.headers|);
      }
      assert !Delivered(c, b, x, h, t, []);
    }
  }

  // ----- a cut among the characters of a string -----

  /** A string that breaks off among its characters, none of them Huffman coded. */
  predicate CutAmongCharacters(q: seq<Byte>) {
    q != [] && q[0] < 128 && DecodeInt(q, 127).Some? && |DecodeInt(q, 127).value.rest| < DecodeInt(q, 127).value.val
  }

  /** The literal's zero gets among the characters, wherever the block goes on. */
  lemma CharactersTakeZero(c: Codec, q: seq<Byte>, y: seq<Byte>)
    requires CutAmongCharacters(q) && y != [] && y[0] == 0 && DecodeString(c, q + y).Some?
    ensures 0 in DecodeString(c, q + y).value.val
  {
    var Front(n, part) := DecodeInt(q, 127).value;
    IntStable(q, y, 127);
    var s := DecodeString(c, q + y).value.val;
    assert s == (part + y)[..n];
    assert s[|part|] == 0;
  }

  predicate HasZero(h: Header) {
    0 in h.name || 0 in h.value
  }

  lemma LiteralTakesZero(c: Codec, p: seq<Byte>, t: Table, y: seq<Byte>)
    requires PendingString(c, p).Some? && CutAmongCharacters(PendingString(c, p).value) && y != [] && y[0] == 0
    ensures var l := DecodeLiteral(c, p + y, IndexFull(p), t);
            l.Some? ==> HasZero(l.value.val)
  {
    var full, q := IndexFull(p), PendingString(c, p).value;
    var Front(index, r) := DecodeInt(p, full).value;
    IntStable(p, y, full);
    if DecodeString(c, q + y).Some? {
      CharactersTakeZero(c, q, y);
    }
    if index == 0 && DecodeString(c, r).Some? {
      StringStable(c, r, y);
    }
  }

  /**
   * A string cut among its characters takes the inserted bytes for its own, of which a zero is the
   * first: whatever the rest of the block, the header is not delivered if the one cut has no zero
   * byte, as section 10.3 of RFC 7540 asks of valid headers.
   */
  lemma CutCharactersLoseHeader(c: Codec, b: seq<Byte>, x: seq<Byte>, h: Header, t: Table, more: seq<Byte>)
    requires x != [] && x[0] == 0 && !HasZero(h)
    requires Completes(c, b, t, more)
    requires var p := ReadFragment(c, b, t, true);
             && PendingString(c, p.rest).Some? && CutAmongCharacters(PendingString(c, p.rest).value)
             && (forall i :: |p.headers| <= i < |Decode(c, b + more, t).value.headers| ==>
                  !HasZero(Decode(c, b + more, t).value.headers[i]))
    ensures !Delivered(c, b, x, h, t, more)
  {
    var p := ReadFragment(c, b, t, true);
    var was := DecodeBlock(c, p.rest + more, p.table, p.start);
    var now := DecodeBlock(c, p.rest + (x + more), p.table, p.start);
    DecodeGoesOn(c, b, more, t, true);
    LiteralGivesFirst(c, p.rest + more, p.table, p.start);
    LiteralGivesFirst(c, p.rest + (x + more), p.table, p.start);
    LiteralTakesZero(c, p.rest, p.table, x + more);
    assert Decode(c, b + more, t).value.headers[|p.headers|] == was.value.headers[0];
    FirstParts(was, now, h);
    DerailedIsNotDelivered(c, b, x, h, t, more);
  }

  /** A Huffman-coded string cut short does so too, with every rest that does not go on as a zero byte does. */
  lemma CutCodeLosesHeader(c: Codec, b: seq<Byte>, x: seq<Byte>, h: Header, t: Table, more: seq<Byte>)
    requires LiteralAhead(x) && Completes(c, b, t, more)
    requires var p := ReadFragment(c, b, t, true).rest;
             p != [] && CutInHuffman(c, p) && Usable(c, p, h, more)
    ensures !Delivered(c, b, x, h, t, more)
  {
    var p := ReadFragment(c, b, t, true);
    FragmentIsWhole(c, b, t, true);
    DecodeGoesOn(c, b, more, t, true);
    CutCodedString(c, p.rest, p.table, p.start, x, h, more);
    DerailedIsNotDelivered(c, b, x, h, t, more);
  }
}
