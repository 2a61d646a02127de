/** The memory routine the reader copies sectors with. */
module Memory {
  import opened Machine

  /** Copies `n` bytes from `src[from..]` to `dst[at..]`, byte by byte from the front. */
  method Memcpy(dst: array<byte>, at: nat, src: array<byte>, from: nat, n: nat)
    requires dst != src
    requires at + n <= dst.Length && from + n <= src.Length
    modifies dst
    ensures dst[..] == old(dst[..at]) + src[from..from + n] + old(dst[at + n..])
  {
    var i := 0;
    while i < n
      invariant i <= n
      invariant forall j :: at <= j < at + i ==> dst[j] == src[from + (j - at)]
      invariant forall j :: 0 <= j < dst.Length && !(at <= j < at + i) ==> dst[j] == old(dst[j])
    {
      dst[at + i] := src[from + i];
      i := i + 1;
    }
    forall j | 0 <= j < dst.Length
      ensures dst[j] == (old(dst[..at]) + src[from..from + n] + old(dst[at + n..]))[j]
    {
      if at <= j < at + n {
        assert dst[j] == src[from + (j - at)];
      }
    }
  }
}
