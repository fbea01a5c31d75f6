/** Copying into a destination buffer. */
module Buffers {

  /** `dest` holds the first `n` source bytes, and is unchanged beyond them. */
  ghost predicate Copied<T>(dest: seq<T>, before: seq<T>, src: seq<T>, n: nat) {
    && n <= |src| && n <= |before| && |dest| == |before|
    && dest[..n] == src[..n]
    && dest[n..] == before[n..]
  }

  /** `memcpy(dest + off, src + off, n)` */
  method CopyBytes<T>(src: seq<T>, dest: array<T>, off: nat, n: nat, ghost before: seq<T>)
    requires off + n <= |src| && off + n <= dest.Length
    requires Copied(dest[..], before, src, off)
    modifies dest
    ensures Copied(dest[..], before, src, off + n)
  {
    forall i | off <= i < off + n {
      dest[i] := src[i];
    }
  }
}
