/** Copies between byte buffers, as `memcpy` makes them. */
module Buffers {
  method CopyInto<T>(dst: array<T>, at: nat, src: seq<T>)
    requires at + |src| <= dst.Length
    modifies dst
    ensures dst[..at] == old(dst[..at])
    ensures dst[at..at + |src|] == src
    ensures dst[at + |src|..] == old(dst[at + |src|..])
  {
    forall i | 0 <= i < |src| {
      dst[at + i] := src[i];
    }
  }

  /** Three copies build the data with `x` put in at `at`. */
  method Splice<T>(dst: array<T>, data: array<T>, num: nat, at: nat, x: seq<T>)
    requires dst != data && at <= num <= data.Length && num + |x| <= dst.Length
    modifies dst
    ensures dst[..num + |x|] == data[..at] + x + data[at..num]
  {
    CopyInto(dst, 0, data[..at]);
    CopyInto(dst, at, x);
    assert dst[..at + |x|] == dst[..at] + dst[at..at + |x|] == data[..at] + x;
    CopyInto(dst, at + |x|, data[at..num]);
    assert dst[..num + |x|] == dst[..at + |x|] + dst[at + |x|..num + |x|];
  }
}
