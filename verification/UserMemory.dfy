/** User memory as a uprobe sees it: a partial map of bytes, read through a helper that zero-fills on failure. */
module UserMemory {
  import opened Numbers
  import opened Frames

  type Memory = map<nat, Byte>

  predicate Readable(mem: Memory, a: nat, n: nat) {
    a + n <= TWO64 && forall i :: a <= i < a + n ==> i in mem
  }

  /** `bpf_probe_read_user`: the bytes, or zeros when any of them cannot be read. */
  function ReadUser(mem: Memory, a: nat, n: nat): (b: seq<Byte>)
    ensures |b| == n
  {
    if Readable(mem, a, n) then seq(n, i requires 0 <= i < n => mem[a + i]) else seq(n, i => 0)
  }

  /** Nothing is read in part: if a byte is missing, all of them are zero. */
  lemma UnreadableIsZero(mem: Memory, a: nat, n: nat, i: nat)
    requires i < n && (a + i !in mem || a + n > 0x1_0000_0000_0000_0000)
    ensures forall k :: 0 <= k < n ==> ReadUser(mem, a, n)[k] == 0
    ensures n == 8 ==> Word(mem, a) == 0
  {
    assert !Readable(mem, a, n);
    if n == 8 {
      ZerosAreZero(ReadUser(mem, a, 8));
    }
  }

  lemma {:induction false} ZerosAreZero(b: seq<Byte>)
    requires forall k :: 0 <= k < |b| ==> b[k] == 0
    ensures Decode(b) == 0
  {
    if b != [] {
      ZerosAreZero(b[1..]);
    }
  }

  /** Little-endian value of a byte string. */
  function Decode(b: seq<Byte>): nat {
    if b == [] then 0 else b[0] + 256 * Decode(b[1..])
  }

  function Encode(v: nat, n: nat): (b: seq<Byte>)
    ensures |b| == n
    decreases n, v
  {
    if n == 0 then [] else [v % 256] + Encode(v / 256, n - 1)
  }

  function Pow256(n: nat): nat {
    if n == 0 then 1 else 256 * Pow256(n - 1)
  }

  lemma {:induction false} DecodeUndoesEncode(v: nat, n: nat)
    requires v < Pow256(n)
    ensures Decode(Encode(v, n)) == v
  {
    if n > 0 {
      DecodeUndoesEncode(v / 256, n - 1);
      assert Encode(v, n)[1..] == Encode(v / 256, n - 1);
    }
  }

  /** The 8-byte word at an address. */
  function Word(mem: Memory, a: nat): nat {
    Decode(ReadUser(mem, a, 8))
  }

  /** A word taken as a signed 64-bit number. */
  function Signed(w: nat): int {
    if w < TWO63 then w else w - TWO64
  }

  function Unsigned(v: int): nat
    requires -TWO63 <= v < TWO63
  {
    if v < 0 then v + TWO64 else v
  }

  /** 64-bit address arithmetic. */
  function Plus(a: nat, offset: nat): nat {
    (a + offset) % TWO64
  }

  lemma PlusIsExact(a: nat, offset: nat)
    requires a + offset < TWO64
    ensures Plus(a, offset) == a + offset
  {
  }

  /** What a probe can ask of user memory: the word at an address, and a run of bytes. */
  datatype User = User(word: nat -> nat, octets: (nat, nat) -> seq<Byte>)

  function Mapped(mem: Memory): User {
    User((a: nat) => Word(mem, a), (a: nat, n: nat) => ReadUser(mem, a, n))
  }

  /** A read of `n` bytes fills `n` bytes. */
  ghost predicate Full(user: User) {
    forall a, n :: |user.octets(a, n)| == n
  }

  ghost predicate HoldsWord(user: User, a: nat, v: nat) {
    a + 8 <= TWO64 && v < TWO64 && user.word(a) == v
  }

  ghost predicate HoldsOctets(user: User, a: nat, b: seq<Byte>) {
    forall n: nat :: n <= |b| ==> user.octets(a, n) == b[..n]
  }

  /** The memory holds these bytes at `a`. */
  ghost predicate Holds(mem: Memory, a: nat, b: seq<Byte>) {
    Readable(mem, a, |b|) && forall i :: 0 <= i < |b| ==> mem[a + i] == b[i]
  }

  lemma BytesAreHeld(mem: Memory, a: nat, b: seq<Byte>)
    requires Holds(mem, a, b)
    ensures HoldsOctets(Mapped(mem), a, b) && Full(Mapped(mem))
  {
    forall n: nat | n <= |b|
      ensures ReadUser(mem, a, n) == b[..n]
    {
    }
  }

  /** A word written little-endian into memory is read back. */
  lemma WordIsHeld(mem: Memory, a: nat, v: nat)
    requires v < TWO64 && Holds(mem, a, Encode(v, 8))
    ensures HoldsWord(Mapped(mem), a, v)
  {
    assert ReadUser(mem, a, 8) == Encode(v, 8);
    assert Pow256(8) == TWO64 by {
      assert Pow256(4) == 0x1_0000_0000;
    }
    DecodeUndoesEncode(v, 8);
  }
}
