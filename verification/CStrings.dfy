/**
 * NUL-terminated strings in fixed-size buffers.  A `char` stands for one byte.
 * Two independent writers fill key buffers: the copy loop of the BPF side and
 * `snprintf` on the userspace side.
 */
module CStrings {
  import opened Numbers
  const NUL: char := '\0'

  /** The C string that starts at the front of `mem`: everything before the first NUL. */
  function CStr(mem: string): (s: string)
    ensures s <= mem && NUL !in s
    ensures |s| < |mem| ==> mem[|s|] == NUL
  {
    if mem == [] || mem[0] == NUL then [] else [mem[0]] + CStr(mem[1..])
  }

  lemma CStrUnique(mem: string, s: string)
    requires s <= mem && NUL !in s
    requires |s| < |mem| ==> mem[|s|] == NUL
    ensures CStr(mem) == s
  {
    if s != [] {
      CStrUnique(mem[1..], s[1..]);
    }
  }

  /** A string with its terminator, as a literal lies in memory. */
  function Terminated(s: string): (mem: string)
    requires NUL !in s
    ensures NUL in mem && CStr(mem) == s
  {
    CStrUnique(s + [NUL], s);
    s + [NUL]
  }

  function Zeros(n: nat): (s: string)
    ensures |s| == n && forall i :: 0 <= i < n ==> s[i] == NUL
  {
    seq(n, i => NUL)
  }

  /** `s` cut to `size - 1` characters and padded with NULs to exactly `size`. */
  function Padded(s: string, size: nat): (buf: string)
    requires size > 0
    ensures |buf| == size && buf[size - 1] == NUL
  {
    s[..Min(|s|, size - 1)] + Zeros(size - Min(|s|, size - 1))
  }

  /** Reading a padded buffer back gives the string, cut to what fits. */
  lemma CStrOfPadded(s: string, size: nat)
    requires size > 0 && NUL !in s
    ensures CStr(Padded(s, size)) == s[..Min(|s|, size - 1)]
  {
    CStrUnique(Padded(s, size), s[..Min(|s|, size - 1)]);
  }

  /**
   * A buffer holding a string that leaves room to spare is matched by no other
   * string, of any length: cutting a longer one never creates a false match.
   */
  lemma TruncationNeverMatches(short: string, s: string, size: nat)
    requires NUL !in short && NUL !in s && |short| < size - 1
    ensures Padded(s, size) == Padded(short, size) <==> s == short
  {
    if Padded(s, size) == Padded(short, size) {
      CStrOfPadded(s, size);
      CStrOfPadded(short, size);
    }
  }

  /**
   * The copy loop of the BPF side.  `src` is the memory read by the loop; the
   * caller guarantees a NUL before the bound, or that many readable bytes.
   */
  method KeySet(dst: array<char>, src: string)
    requires dst.Length > 0
    requires NUL in src || dst.Length - 1 <= |src|
    modifies dst
    ensures var n := Min(|CStr(src)|, dst.Length - 1);
            dst[..] == CStr(src)[..n] + old(dst[..])[n..]
  {
    ghost var s := CStr(src);
    assert NUL in src ==> |s| < |src|;
    var i := 0;
    while i < dst.Length - 1 && src[i] != NUL
      invariant 0 <= i <= Min(|s|, dst.Length - 1)
      invariant forall k :: 0 <= k < i ==> dst[k] == s[k]
      invariant forall k :: i <= k < dst.Length ==> dst[k] == old(dst[k])
    {
      dst[i] := src[i];
      i := i + 1;
    }
    assert i == Min(|s|, dst.Length - 1);
  }

  /** Into a zeroed buffer both writers leave the same bytes. */
  lemma WritersAgree(s: string, n: nat, size: nat)
    requires size > 0 && n == Min(|s|, size - 1)
    ensures s[..n] + Zeros(size)[n..] == Padded(s, size)
    ensures s[..n] + [NUL] + Zeros(size)[n + 1..] == Padded(s, size)
  {
    assert forall i :: n <= i < size ==> Zeros(size)[i] == NUL;
  }

  /** `snprintf(dst, sizeof dst, "%s", src)`: at most `size - 1` characters, then one NUL. */
  method Snprintf(dst: array<char>, src: string)
    requires dst.Length > 0
    requires NUL in src
    modifies dst
    ensures var n := Min(|CStr(src)|, dst.Length - 1);
            dst[..] == CStr(src)[..n] + [NUL] + old(dst[..])[n + 1..]
  {
    ghost var s := CStr(src);
    var n := 0;
    while n < dst.Length - 1 && src[n] != NUL
      invariant 0 <= n <= Min(|s|, dst.Length - 1)
    {
      n := n + 1;
    }
    forall i | 0 <= i < n {
      dst[i] := src[i];
    }
    dst[n] := NUL;
  }
}
