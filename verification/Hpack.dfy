/**
 * Header-block decoding of HTTP/2: prefixed integers and strings (sections 5.1 and
 * 5.2 of RFC 7541), the dynamic table (section 4) and the field representations
 * (section 6).  The static table and the Huffman code are parameters.
 */
module Hpack {
  import opened Options
  import opened Frames

  datatype Header = Header(name: seq<Byte>, value: seq<Byte>)

  /** `limit` is the size the decoder allows the dynamic table to be set to. */
  datatype Codec = Codec(staticTable: seq<Header>, huffman: seq<Byte> -> Option<seq<Byte>>, limit: nat)

  /** The dynamic table, newest entry first. */
  datatype Table = Table(entries: seq<Header>, maxSize: nat)

  /** A value read off the front, and the bytes that remain. */
  datatype Front<+T> = Front(val: T, rest: seq<Byte>)

  // ----- integers and strings -----

  /** The continuation bytes of an integer: seven bits each, least significant first. */
  function IntTail(b: seq<Byte>): (r: Option<Front<nat>>)
    ensures r.Some? ==> |r.value.rest| < |b|
  {
    if b == [] then None
    else if b[0] < 128 then Some(Front(b[0], b[1..]))
    else
      match IntTail(b[1..])
      case None => None
      case Some(Front(higher, rest)) => Some(Front(b[0] - 128 + 128 * higher, rest))
  }

  /** An integer whose prefix holds values up to `full`. */
  function DecodeInt(b: seq<Byte>, full: nat): (r: Option<Front<nat>>)
    ensures r.Some? ==> |r.value.rest| < |b|
  {
    if b == [] then None
    else if b[0] % (full + 1) < full then Some(Front(b[0] % (full + 1), b[1..]))
    else
      match IntTail(b[1..])
      case None => None
      case Some(Front(excess, rest)) => Some(Front(full + excess, rest))
  }

  function DecodeString(c: Codec, b: seq<Byte>): (r: Option<Front<seq<Byte>>>)
    ensures r.Some? ==> |r.value.rest| < |b|
  {
    match DecodeInt(b, 127)
    case None => None
    case Some(Front(n, rest)) =>
      if n > |rest| then None
      else if b[0] < 128 then Some(Front(rest[..n], rest[n..]))
      else
        match c.huffman(rest[..n])
        case None => None
        case Some(s) => Some(Front(s, rest[n..]))
  }

  // ----- tables -----

  function SizeOf(entries: seq<Header>): nat {
    if entries == [] then 0 else |entries[0].name| + |entries[0].value| + 32 + SizeOf(entries[1..])
  }

  /** Oldest entries are dropped until the rest fits. */
  function Evict(entries: seq<Header>, maxSize: nat): seq<Header> {
    if entries == [] || SizeOf(entries) <= maxSize then entries else Evict(entries[..|entries| - 1], maxSize)
  }

  function Insert(t: Table, h: Header): Table {
    t.(entries := Evict([h] + t.entries, t.maxSize))
  }

  function Lookup(c: Codec, t: Table, index: nat): Option<Header> {
    if 1 <= index <= |c.staticTable| then Some(c.staticTable[index - 1])
    else if |c.staticTable| < index <= |c.staticTable| + |t.entries| then Some(t.entries[index - |c.staticTable| - 1])
    else None
  }

  /** Section 4.1 of RFC 7541: 32 bytes more than name and value for each entry. */
  lemma SizeOfOneMore(h: Header, entries: seq<Header>)
    ensures SizeOf([h] + entries) == |h.name| + |h.value| + 32 + SizeOf(entries) && SizeOf([]) == 0
  {
    assert ([h] + entries)[1..] == entries;
  }

  /** Sections 4.3 and 4.4: the newest entries stay, as many as fit. */
  lemma {:induction false} EvictedExactly(entries: seq<Header>, maxSize: nat)
    ensures var k := |Evict(entries, maxSize)|;
            && k <= |entries| && Evict(entries, maxSize) == entries[..k] && SizeOf(entries[..k]) <= maxSize
            && forall j: nat :: j <= |entries| && SizeOf(entries[..j]) <= maxSize ==> j <= k
    decreases |entries|
  {
    assert entries[..|entries|] == entries;
    if entries != [] && SizeOf(entries) > maxSize {
      var fewer := entries[..|entries| - 1];
      EvictedExactly(fewer, maxSize);
      assert forall j: nat :: j <= |fewer| ==> fewer[..j] == entries[..j];
    }
  }

  /** Section 2.3.3: the static table first, then the dynamic one from the newest entry on. */
  lemma LookupExactly(c: Codec, t: Table, i: nat)
    ensures i < |c.staticTable| ==> Lookup(c, t, i + 1) == Some(c.staticTable[i])
    ensures i < |t.entries| ==> Lookup(c, t, |c.staticTable| + i + 1) == Some(t.entries[i])
    ensures Lookup(c, t, 0) == None && Lookup(c, t, |c.staticTable| + |t.entries| + i + 1) == None
  {
  }

  // ----- fields -----

  /** The effect of one representation: at most one header, and the new table. */
  datatype Field = Field(emitted: seq<Header>, table: Table)

  /** The name of a literal: by index, or spelled out when the index is zero. */
  function DecodeName(c: Codec, b: seq<Byte>, index: nat, t: Table): (r: Option<Front<seq<Byte>>>)
    ensures r.Some? ==> |r.value.rest| <= |b|
  {
    if index == 0 then DecodeString(c, b)
    else
      match Lookup(c, t, index)
      case None => None
      case Some(h) => Some(Front(h.name, b))
  }

  /** A literal representation whose index has a prefix of values up to `full`. */
  function DecodeLiteral(c: Codec, b: seq<Byte>, full: nat, t: Table): (r: Option<Front<Header>>)
    ensures r.Some? ==> |r.value.rest| < |b|
  {
    match DecodeInt(b, full)
    case None => None
    case Some(Front(index, afterIndex)) => (
      match DecodeName(c, afterIndex, index, t)
      case None => None
      case Some(Front(name, afterName)) => (
        match DecodeString(c, afterName)
        case None => None
        case Some(Front(value, rest)) => Some(Front(Header(name, value), rest))))
  }

  /** Section 6.1: both name and value by index. */
  function DecodeIndexed(c: Codec, b: seq<Byte>, t: Table): (r: Option<Front<Field>>)
    ensures r.Some? ==> |r.value.rest| < |b|
  {
    match DecodeInt(b, 127)
    case None => None
    case Some(Front(index, rest)) => (
      match Lookup(c, t, index)
      case None => None
      case Some(h) => Some(Front(Field([h], t), rest)))
  }

  /** Section 6.2: a literal that enters the table, or one that does not. */
  function DecodeNewField(c: Codec, b: seq<Byte>, t: Table, indexing: bool): (r: Option<Front<Field>>)
    ensures r.Some? ==> |r.value.rest| < |b|
  {
    match DecodeLiteral(c, b, if indexing then 63 else 15, t)
    case None => None
    case Some(Front(h, rest)) => Some(Front(Field([h], if indexing then Insert(t, h) else t), rest))
  }

  /** Section 6.3: a table size update only counts at the start of a block. */
  function DecodeSizeUpdate(c: Codec, b: seq<Byte>, t: Table, start: bool): (r: Option<Front<Field>>)
    ensures r.Some? ==> |r.value.rest| < |b|
  {
    match DecodeInt(b, 31)
    case None => None
    case Some(Front(size, rest)) =>
      if !start || size > c.limit then None
      else Some(Front(Field([], Table(Evict(t.entries, size), size)), rest))
  }

  /** One field representation, told apart by its leading bits. */
  function DecodeField(c: Codec, b: seq<Byte>, t: Table, start: bool): (r: Option<Front<Field>>)
    requires b != []
    ensures r.Some? ==> |r.value.rest| < |b|
  {
    if b[0] >= 128 then DecodeIndexed(c, b, t)
    else if 32 <= b[0] < 64 then DecodeSizeUpdate(c, b, t, start)
    else DecodeNewField(c, b, t, b[0] >= 64)
  }

  datatype Decoded = Decoded(headers: seq<Header>, table: Table)

  function Prepend(hs: seq<Header>, d: Option<Decoded>): Option<Decoded> {
    match d
    case None => None
    case Some(x) => Some(x.(headers := hs + x.headers))
  }

  /** A block, or the rest of one; `start` holds until the first header. */
  function DecodeBlock(c: Codec, b: seq<Byte>, t: Table, start: bool): Option<Decoded>
    decreases |b|
  {
    if b == [] then Some(Decoded([], t))
    else
      match DecodeField(c, b, t, start)
      case None => None
      case Some(Front(f, rest)) => Prepend(f.emitted, DecodeBlock(c, rest, f.table, start && f.emitted == []))
  }

  function Decode(c: Codec, b: seq<Byte>, t: Table): Option<Decoded> {
    DecodeBlock(c, b, t, true)
  }

  // ----- what follows a decoded piece does not matter to it -----

  function Followed<T>(r: Option<Front<T>>, x: seq<Byte>): Option<Front<T>> {
    match r
    case None => None
    case Some(Front(v, rest)) => Some(Front(v, rest + x))
  }

  lemma {:induction false} IntTailStable(b: seq<Byte>, x: seq<Byte>)
    requires IntTail(b).Some?
    ensures IntTail(b + x) == Followed(IntTail(b), x)
  {
    assert (b + x)[1..] == b[1..] + x;
    if b[0] >= 128 {
      IntTailStable(b[1..], x);
    }
  }

  lemma IntStable(b: seq<Byte>, x: seq<Byte>, full: nat)
    requires DecodeInt(b, full).Some?
    ensures DecodeInt(b + x, full) == Followed(DecodeInt(b, full), x)
  {
    assert (b + x)[1..] == b[1..] + x;
    if b[0] % (full + 1) >= full {
      IntTailStable(b[1..], x);
    }
  }

  lemma StringStable(c: Codec, b: seq<Byte>, x: seq<Byte>)
    requires DecodeString(c, b).Some?
    ensures DecodeString(c, b + x) == Followed(DecodeString(c, b), x)
  {
    IntStable(b, x, 127);
    var Front(n, rest) := DecodeInt(b, 127).value;
    assert (rest + x)[..n] == rest[..n] && (rest + x)[n..] == rest[n..] + x;
  }

  lemma NameStable(c: Codec, b: seq<Byte>, x: seq<Byte>, index: nat, t: Table)
    requires DecodeName(c, b, index, t).Some?
    ensures DecodeName(c, b + x, index, t) == Followed(DecodeName(c, b, index, t), x)
  {
    if index == 0 {
      StringStable(c, b, x);
    }
  }

  lemma LiteralStable(c: Codec, b: seq<Byte>, x: seq<Byte>, full: nat, t: Table)
    requires DecodeLiteral(c, b, full, t).Some?
    ensures DecodeLiteral(c, b + x, full, t) == Followed(DecodeLiteral(c, b, full, t), x)
  {
    IntStable(b, x, full);
    var Front(index, afterIndex) := DecodeInt(b, full).value;
    NameStable(c, afterIndex, x, index, t);
    StringStable(c, DecodeName(c, afterIndex, index, t).value.rest, x);
  }

  lemma FieldStable(c: Codec, b: seq<Byte>, x: seq<Byte>, t: Table, start: bool)
    requires b != [] && DecodeField(c, b, t, start).Some?
    ensures DecodeField(c, b + x, t, start) == Followed(DecodeField(c, b, t, start), x)
  {
    if b[0] >= 128 {
      IntStable(b, x, 127);
    } else if 32 <= b[0] < 64 {
      IntStable(b, x, 31);
    } else {
      LiteralStable(c, b, x, if b[0] >= 64 then 63 else 15, t);
    }
  }

  /** How far a fragment of a block takes the decoder: headers and table so far, and the bytes of a field cut short. */
  datatype Progress = Progress(headers: seq<Header>, table: Table, start: bool, rest: seq<Byte>)

  function ReadFragment(c: Codec, b: seq<Byte>, t: Table, start: bool): Progress
    decreases |b|
  {
    if b == [] || DecodeField(c, b, t, start).None? then Progress([], t, start, b)
    else
      var Front(f, rest) := DecodeField(c, b, t, start).value;
      var p := ReadFragment(c, rest, f.table, start && f.emitted == []);
      p.(headers := f.emitted + p.headers)
  }

  /** Decoding any longer block goes on from there; the start of the block has passed with the first header. */
  lemma {:induction false} DecodeGoesOn(c: Codec, b: seq<Byte>, x: seq<Byte>, t: Table, start: bool)
    ensures var p := ReadFragment(c, b, t, start);
            && DecodeBlock(c, b + x, t, start) == Prepend(p.headers, DecodeBlock(c, p.rest + x, p.table, p.start))
            && p.start == (start && p.headers == [])
    decreases |b|
  {
    if b == [] || DecodeField(c, b, t, start).None? {
      PrependNothing(DecodeBlock(c, b + x, t, start));
    } else {
      FieldStable(c, b, x, t, start);
      var Front(f, rest) := DecodeField(c, b, t, start).value;
      var p := ReadFragment(c, rest, f.table, start && f.emitted == []);
      DecodeGoesOn(c, rest, x, f.table, start && f.emitted == []);
      PrependTwice(f.emitted, p.headers, DecodeBlock(c, p.rest + x, p.table, p.start));
    }
  }

  /** A fragment decodes by itself exactly when it ends where a field ends. */
  lemma {:induction false} FragmentIsWhole(c: Codec, b: seq<Byte>, t: Table, start: bool)
    ensures var p := ReadFragment(c, b, t, start);
            && (p.rest == [] <==> DecodeBlock(c, b, t, start).Some?)
            && (p.rest == [] ==> DecodeBlock(c, b, t, start) == Some(Decoded(p.headers, p.table)))
            && (p.rest != [] ==> DecodeField(c, p.rest, p.table, p.start).None?)
    decreases |b|
  {
    if b != [] && DecodeField(c, b, t, start).Some? {
      var Front(f, rest) := DecodeField(c, b, t, start).value;
      FragmentIsWhole(c, rest, f.table, start && f.emitted == []);
    }
  }

  /** Decoding a longer block first decodes the shorter one, then goes on from its table. */
  lemma DecodeContinues(c: Codec, b: seq<Byte>, x: seq<Byte>, t: Table, start: bool)
    requires DecodeBlock(c, b, t, start).Some?
    ensures var d := DecodeBlock(c, b, t, start).value;
            DecodeBlock(c, b + x, t, start) == Prepend(d.headers, DecodeBlock(c, x, d.table, start && d.headers == []))
  {
    FragmentIsWhole(c, b, t, start);
    DecodeGoesOn(c, b, x, t, start);
    assert [] + x == x;
  }

  lemma PrependNothing(d: Option<Decoded>)
    ensures Prepend([], d) == d
  {
    if d.Some? {
      assert [] + d.value.headers == d.value.headers;
    }
  }

  lemma PrependTwice(a: seq<Header>, b: seq<Header>, d: Option<Decoded>)
    ensures Prepend(a, Prepend(b, d)) == Prepend(a + b, d)
  {
    if d.Some? {
      assert a + (b + d.value.headers) == (a + b) + d.value.headers;
    }
  }

  // ----- a literal without indexing, name and value spelled out -----

  /** Section 6.2.2 of RFC 7541, for names and values short enough for one length byte. */
  function PlainLiteral(h: Header): seq<Byte>
    requires |h.name| < 127 && |h.value| < 127
  {
    [0] + PlainString(h.name) + PlainString(h.value)
  }

  function PlainString(s: seq<Byte>): seq<Byte>
    requires |s| < 127
  {
    [|s|] + s
  }

  lemma PlainStringDecodes(c: Codec, s: seq<Byte>, z: seq<Byte>)
    requires |s| < 127
    ensures DecodeString(c, PlainString(s) + z) == Some(Front(s, z))
  {
    var b := PlainString(s) + z;
    assert b[1..] == s + z;
    assert DecodeInt(b, 127) == Some(Front(|s|, s + z));
  }

  lemma PlainLiteralDecodes(c: Codec, h: Header, z: seq<Byte>, t: Table)
    requires |h.name| < 127 && |h.value| < 127
    ensures DecodeLiteral(c, PlainLiteral(h) + z, 15, t) == Some(Front(h, z))
  {
    var b, value := PlainLiteral(h) + z, PlainString(h.value) + z;
    assert b[1..] == PlainString(h.name) + value;
    assert DecodeInt(b, 15) == Some(Front(0, b[1..]));
    PlainStringDecodes(c, h.name, value);
    PlainStringDecodes(c, h.value, z);
  }

  /** At the front of a block the literal gives its header, leaves the table, and ends the start of the block. */
  lemma LeadingLiteralDecodes(c: Codec, h: Header, z: seq<Byte>, t: Table, start: bool)
    requires |h.name| < 127 && |h.value| < 127
    ensures DecodeBlock(c, PlainLiteral(h) + z, t, start) == Prepend([h], DecodeBlock(c, z, t, false))
  {
    PlainLiteralDecodes(c, h, z, t);
    assert DecodeField(c, PlainLiteral(h) + z, t, start) == Some(Front(Field([h], t), z));
  }

  /** The literal put where one field ends and the next begins adds just its header there. */
  lemma InsertedLiteralDecodes(c: Codec, a: seq<Byte>, h: Header, z: seq<Byte>, t: Table)
    requires |h.name| < 127 && |h.value| < 127 && Decode(c, a, t).Some?
    ensures var d := Decode(c, a, t).value;
            Decode(c, a + (PlainLiteral(h) + z), t) == Prepend(d.headers + [h], DecodeBlock(c, z, d.table, false))
  {
    var d := Decode(c, a, t).value;
    DecodeContinues(c, a, PlainLiteral(h) + z, t, true);
    LeadingLiteralDecodes(c, h, z, d.table, d.headers == []);
    PrependTwice(d.headers, [h], DecodeBlock(c, z, d.table, false));
  }

  /** Appending the literal to any decodable block appends exactly that header and leaves the table as it was. */
  lemma AppendedLiteralDecodes(c: Codec, b: seq<Byte>, h: Header, t: Table)
    requires |h.name| < 127 && |h.value| < 127 && Decode(c, b, t).Some?
    ensures var d := Decode(c, b, t).value;
            Decode(c, b + PlainLiteral(h), t) == Some(Decoded(d.headers + [h], d.table))
  {
    var d := Decode(c, b, t).value;
    InsertedLiteralDecodes(c, b, h, [], t);
    assert PlainLiteral(h) + [] == PlainLiteral(h);
    assert d.headers + [h] + [] == d.headers + [h];
  }
}
