/** Bytes copied into buffers. */
module Buffers {
  import opened Bits

  /** A string copied into a buffer at a position. */
  method PutBytes(dest: array<byte>, at: nat, b: seq<byte>)
    requires at + |b| <= dest.Length
    modifies dest
    ensures dest[..at + |b|] == old(dest[..at]) + b && dest[at + |b|..] == old(dest[at + |b|..])
  {
    for i := 0 to |b|
      invariant dest[..at + i] == old(dest[..at]) + b[..i] && dest[at + |b|..] == old(dest[at + |b|..])
    {
      dest[at + i] := b[i];
    }
  }

  /** memcpy between different buffers. */
  method CopyBytes(dest: array<byte>, at: nat, src: array<byte>, from: nat, n: nat)
    requires dest != src && at + n <= dest.Length && from + n <= src.Length
    modifies dest
    ensures dest[..at + n] == old(dest[..at]) + src[from..from + n] && dest[at + n..] == old(dest[at + n..])
  {
    for k := 0 to n
      invariant dest[..at + k] == old(dest[..at]) + src[from..from + k] && dest[at + n..] == old(dest[at + n..])
    {
      dest[at + k] := src[from + k];
    }
  }
}
