/**
 * What a header block means, apart from its bytes: a list of representations and
 * their effect on the dynamic table.  The decoder of `Hpack` undoes the encoding here.
 */
module HpackReference {
  import opened Options
  import opened Sequences
  import opened Frames
  import opened Hpack

  /** A string as it is, or as its Huffman code (section 5.2 of RFC 7541). */
  datatype Text = Octets(octets: seq<Byte>) | Coded(code: seq<Byte>)

  datatype NameRef = ByIndex(index: nat) | Spelled(name: Text)

  /** With incremental indexing, without indexing, and never indexed. */
  datatype Indexing = Incremental | Without | Never {
    function High(): nat {
      match this
      case Incremental => 64
      case Without => 0
      case Never => 16
    }

    function Full(): nat {
      if Incremental? then 63 else 15
    }
  }

  /** Sections 6.1, 6.2.1 to 6.2.3, and 6.3 of RFC 7541. */
  datatype Rep =
    | IndexedField(index: nat)
    | LiteralField(indexing: Indexing, name: NameRef, value: Text)
    | SizeUpdate(size: nat)

  /** Index 0 stands for a spelled-out name, so no name is referred to by it. */
  predicate WellFormed(r: Rep) {
    r.LiteralField? && r.name.ByIndex? ==> r.name.index > 0
  }

  // ----- meaning -----

  function TextOf(c: Codec, x: Text): Option<seq<Byte>> {
    match x
    case Octets(s) => Some(s)
    case Coded(b) => c.huffman(b)
  }

  function NameOf(c: Codec, t: Table, name: NameRef): Option<seq<Byte>> {
    match name
    case Spelled(x) => TextOf(c, x)
    case ByIndex(i) =>
      match Lookup(c, t, i)
      case Some(h) => Some(h.name)
      case None => None
  }

  function LiteralOf(c: Codec, t: Table, name: NameRef, value: Text): Option<Header> {
    match (NameOf(c, t, name), TextOf(c, value))
    case (Some(n), Some(v)) => Some(Header(n, v))
    case _ => None
  }

  function Effect(c: Codec, t: Table, r: Rep, start: bool): Option<Field> {
    match r
    case IndexedField(i) => (
      match Lookup(c, t, i)
      case Some(h) => Some(Field([h], t))
      case None => None)
    case LiteralField(indexing, name, value) => (
      match LiteralOf(c, t, name, value)
      case Some(h) => Some(Field([h], if indexing.Incremental? then Insert(t, h) else t))
      case None => None)
    case SizeUpdate(size) =>
      if !start || size > c.limit then None
      else Some(Field([], Table(Evict(t.entries, size), size)))
  }

  function Meaning(c: Codec, reps: seq<Rep>, t: Table, start: bool): Option<Decoded> {
    if reps == [] then Some(Decoded([], t))
    else
      match Effect(c, t, reps[0], start)
      case None => None
      case Some(f) => Prepend(f.emitted, Meaning(c, reps[1..], f.table, start && f.emitted == []))
  }

  // ----- bytes -----

  function EncodeTail(n: nat): (b: seq<Byte>) {
    if n < 128 then [n] else [128 + n % 128] + EncodeTail(n / 128)
  }

  /** The prefix of an integer leaves room for these high bits. */
  predicate Pattern(high: nat, full: nat) {
    (high == 128 && full == 127) || (high == 64 && full == 63) || (high == 32 && full == 31)
    || (high == 16 && full == 15) || (high == 0 && (full == 15 || full == 127))
  }

  function EncodeInt(v: nat, high: nat, full: nat): (b: seq<Byte>)
    requires Pattern(high, full)
    ensures b != [] && high <= b[0] <= high + full
  {
    if v < full then [high + v] else [high + full] + EncodeTail(v - full)
  }

  function EncodeText(x: Text): seq<Byte> {
    match x
    case Octets(s) => EncodeInt(|s|, 0, 127) + s
    case Coded(b) => EncodeInt(|b|, 128, 127) + b
  }

  function EncodeName(name: NameRef, high: nat, full: nat): (b: seq<Byte>)
    requires Pattern(high, full)
    ensures b != [] && high <= b[0] <= high + full
  {
    match name
    case ByIndex(i) => EncodeInt(i, high, full)
    case Spelled(x) => EncodeInt(0, high, full) + EncodeText(x)
  }

  function Encode(r: Rep): (b: seq<Byte>)
    ensures b != []
  {
    match r
    case IndexedField(i) => EncodeInt(i, 128, 127)
    case LiteralField(indexing, name, value) => EncodeName(name, indexing.High(), indexing.Full()) + EncodeText(value)
    case SizeUpdate(size) => EncodeInt(size, 32, 31)
  }

  function EncodeBlock(reps: seq<Rep>): seq<Byte> {
    if reps == [] then [] else Encode(reps[0]) + EncodeBlock(reps[1..])
  }

  // ----- decoding undoes encoding -----

  lemma {:induction false} TailReadsBack(n: nat, z: seq<Byte>)
    ensures IntTail(EncodeTail(n) + z) == Some(Front(n, z))
  {
    var b := EncodeTail(n) + z;
    if n < 128 {
      assert b[1..] == z;
    } else {
      TailReadsBack(n / 128, z);
      assert b[1..] == EncodeTail(n / 128) + z;
    }
  }

  lemma PrefixReadsBack(high: nat, full: nat, p: nat)
    requires Pattern(high, full) && p <= full
    ensures (high + p) % (full + 1) == p
  {
  }

  lemma IntReadsBack(v: nat, high: nat, full: nat, z: seq<Byte>)
    requires Pattern(high, full)
    ensures DecodeInt(EncodeInt(v, high, full) + z, full) == Some(Front(v, z))
  {
    var b := EncodeInt(v, high, full) + z;
    if v < full {
      PrefixReadsBack(high, full, v);
      assert b[0] == high + v && b[1..] == z;
    } else {
      PrefixReadsBack(high, full, full);
      TailReadsBack(v - full, z);
      assert b[0] == high + full && b[1..] == EncodeTail(v - full) + z;
    }
  }

  /** A value read off the front, or the failure to read it. */
  function Then<T>(v: Option<T>, z: seq<Byte>): Option<Front<T>> {
    match v
    case Some(x) => Some(Front(x, z))
    case None => None
  }

  lemma TextReadsBack(c: Codec, x: Text, z: seq<Byte>)
    ensures DecodeString(c, EncodeText(x) + z) == Then(TextOf(c, x), z)
  {
    match x
    case Octets(s) => LengthReadsBack(c, s, 0, z);
    case Coded(b) => LengthReadsBack(c, b, 128, z);
  }

  lemma LengthReadsBack(c: Codec, s: seq<Byte>, high: nat, z: seq<Byte>)
    requires high == 0 || high == 128
    ensures DecodeString(c, EncodeInt(|s|, high, 127) + s + z) == Then(if high == 0 then Some(s) else c.huffman(s), z)
  {
    Associate(EncodeInt(|s|, high, 127), s, z);
    var b := EncodeInt(|s|, high, 127) + (s + z);
    IntReadsBack(|s|, high, 127, s + z);
    assert (s + z)[..|s|] == s && (s + z)[|s|..] == z;
    LengthTellsCoding(|s|, high, b);
  }

  lemma LengthTellsCoding(n: nat, high: nat, b: seq<Byte>)
    requires (high == 0 || high == 128) && EncodeInt(n, high, 127) <= b
    ensures b[0] < 128 || high == 128
    ensures high == 128 ==> b[0] >= 128
  {
  }

  lemma NameReadsBack(c: Codec, t: Table, name: NameRef, high: nat, full: nat, z: seq<Byte>)
    requires Pattern(high, full) && (name.ByIndex? ==> name.index > 0)
    ensures var first := DecodeInt(EncodeName(name, high, full) + z, full);
            && first.Some?
            && DecodeName(c, first.value.rest, first.value.val, t) == Then(NameOf(c, t, name), z)
  {
    match name {
      case ByIndex(i) => IntReadsBack(i, high, full, z);
      case Spelled(x) =>
        Associate(EncodeInt(0, high, full), EncodeText(x), z);
        IntReadsBack(0, high, full, EncodeText(x) + z);
        TextReadsBack(c, x, z);
    }
  }

  lemma LiteralReadsBack(c: Codec, t: Table, name: NameRef, value: Text, high: nat, full: nat, z: seq<Byte>)
    requires Pattern(high, full) && (name.ByIndex? ==> name.index > 0)
    ensures DecodeLiteral(c, EncodeName(name, high, full) + EncodeText(value) + z, full, t) ==
            Then(LiteralOf(c, t, name, value), z)
  {
    Associate(EncodeName(name, high, full), EncodeText(value), z);
    NameReadsBack(c, t, name, high, full, EncodeText(value) + z);
    TextReadsBack(c, value, z);
  }

  /** One representation, followed by anything: its effect, and what follows is left. */
  lemma FieldReadsBack(c: Codec, t: Table, r: Rep, start: bool, z: seq<Byte>)
    requires WellFormed(r)
    ensures DecodeField(c, Encode(r) + z, t, start) == Then(Effect(c, t, r, start), z)
  {
    match r
    case IndexedField(i) => IntReadsBack(i, 128, 127, z);
    case LiteralField(indexing, name, value) =>
      LiteralReadsBack(c, t, name, value, indexing.High(), indexing.Full(), z);
    case SizeUpdate(size) => IntReadsBack(size, 32, 31, z);
  }

  /** Decoding an encoded block gives what its representations mean, failures included. */
  lemma {:induction false} DecodeUndoesEncode(c: Codec, reps: seq<Rep>, t: Table, start: bool)
    requires forall i :: 0 <= i < |reps| ==> WellFormed(reps[i])
    ensures DecodeBlock(c, EncodeBlock(reps), t, start) == Meaning(c, reps, t, start)
  {
    if reps != [] {
      FieldReadsBack(c, t, reps[0], start, EncodeBlock(reps[1..]));
      if Effect(c, t, reps[0], start).Some? {
        var f := Effect(c, t, reps[0], start).value;
        DecodeUndoesEncode(c, reps[1..], f.table, start && f.emitted == []);
      }
    }
  }

  /** The bytes the injector builds encode a literal that does not enter the table. */
  lemma PlainLiteralIsEncoded(h: Header)
    requires |h.name| < 127 && |h.value| < 127
    ensures PlainLiteral(h) == Encode(LiteralField(Without, Spelled(Octets(h.name)), Octets(h.value)))
  {
  }
}
