/** Copying while checksumming (`ww_bcopy_uicsum_partial`, `ww_bcopy_csum_partial` in src/util/crc.c).
    The checksum may run on past the copied bytes. */
module CopyChecksum {
  import opened Buffers
  import opened Checksum

  function Max(a: nat, b: nat): nat {
    if a < b then b else a
  }

  /** `memcpy(dest, &temp, sizeof(temp))`: a word that holds the source bytes goes to the destination. */
  method PutWord(w: nat, word: seq<byte>, dest: array<byte>, off: nat, ghost src: seq<byte>, ghost before: seq<byte>)
    requires off + w <= |src| && off + w <= dest.Length && word == src[off..off + w]
    requires Copied(dest[..], before, src, off)
    modifies dest
    ensures Copied(dest[..], before, src, off + w)
  {
    forall i | 0 <= i < w {
      dest[off + i] := word[i];
    }
  }

  /** A store through a word pointer, which has to be aligned. */
  method StoreWord(w: nat, address: nat, word: seq<byte>, dest: array<byte>, off: nat,
                   ghost src: seq<byte>, ghost before: seq<byte>)
    requires 0 < w && Aligned(w, address + off)
    requires off + w <= |src| && off + w <= dest.Length && word == src[off..off + w]
    requires Copied(dest[..], before, src, off)
    modifies dest
    ensures Copied(dest[..], before, src, off + w)
  {
    PutWord(w, word, dest, off, src, before);
  }

  /** The first `off` source bytes are summed, with nothing pending, and copied. */
  ghost predicate CopiedAndSummed(w: nat, e: Endian, p: seq<byte>, src: seq<byte>, off: nat, csum: nat,
                                  dest: seq<byte>, before: seq<byte>)
    requires 0 < w
  {
    off <= |src| && Summed(w, e, p, src[..off], csum, []) && Copied(dest, before, src, off)
  }

  /** `csum += word` for the next word of the source. */
  method AddNextWord(w: nat, e: Endian, src: seq<byte>, off: nat, word: seq<byte>, csum: nat, ghost p: seq<byte>)
    returns (csum': nat)
    requires 0 < w && off + w <= |src| && word == src[off..off + w]
    requires Summed(w, e, p, src[..off], csum, [])
    ensures Summed(w, e, p, src[..off + w], csum', [])
  {
    csum' := AddWholeWord(w, e, csum, word, p, src[..off]);
    assert src[..off] + word == src[..off + w];
  }

  /** `csum += *src; *dest++ = *src++;` */
  method CopyOneDirect(w: nat, e: Endian, srcAddress: nat, destAddress: nat, src: seq<byte>, dest: array<byte>,
                       off: nat, csum: nat, ghost p: seq<byte>, ghost before: seq<byte>)
    returns (csum': nat)
    requires 0 < w && off + w <= |src| && off + w <= dest.Length
    requires Aligned(w, srcAddress + off) && Aligned(w, destAddress + off)
    requires CopiedAndSummed(w, e, p, src, off, csum, dest[..], before)
    modifies dest
    ensures Aligned(w, srcAddress + off + w) && Aligned(w, destAddress + off + w)
    ensures CopiedAndSummed(w, e, p, src, off + w, csum', dest[..], before)
  {
    var word := LoadWord(w, srcAddress, src, off);
    csum' := AddNextWord(w, e, src, off, word, csum, p);
    StoreWord(w, destAddress, word, dest, off, src, before);
    AlignStep(srcAddress + off, w);
    AlignStep(destAddress + off, w);
  }

  /** Both buffers aligned: load, add and store words, counted. */
  method CopyDirect(w: nat, e: Endian, srcAddress: nat, destAddress: nat, src: seq<byte>, dest: array<byte>,
                    copylen: nat, off: nat, csum: nat, ghost p: seq<byte>, ghost before: seq<byte>)
    returns (csum': nat, off': nat)
    requires 0 < w && off <= copylen <= |src| && copylen <= dest.Length
    requires Aligned(w, srcAddress + off) && Aligned(w, destAddress + off)
    requires CopiedAndSummed(w, e, p, src, off, csum, dest[..], before)
    modifies dest
    ensures off <= off' <= copylen && copylen - off' < w
    ensures Aligned(w, copylen - off) ==> off' == copylen
    ensures CopiedAndSummed(w, e, p, src, off', csum', dest[..], before)
  {
    csum', off' := csum, off;
    var i, numLongs := 0, (copylen - off) / w;
    WordSteps(copylen - off, w);
    while i < numLongs
      invariant i <= numLongs && off' == off + Words(i, w) <= off + Words(numLongs, w)
      invariant Aligned(w, srcAddress + off') && Aligned(w, destAddress + off')
      invariant CopiedAndSummed(w, e, p, src, off', csum', dest[..], before)
    {
      WordFits(i, numLongs, w);
      csum' := CopyOneDirect(w, e, srcAddress, destAddress, src, dest, off', csum', p, before);
      off', i := off' + w, i + 1;
    }
  }

  /** Only the source aligned: load words and copy them out, counting down. */
  method CopyFromAligned(w: nat, e: Endian, srcAddress: nat, src: seq<byte>, dest: array<byte>,
                         copylen: nat, off: nat, csum: nat, ghost p: seq<byte>, ghost before: seq<byte>)
    returns (csum': nat, off': nat)
    requires 0 < w && off <= copylen <= |src| && copylen <= dest.Length
    requires Aligned(w, srcAddress + off)
    requires CopiedAndSummed(w, e, p, src, off, csum, dest[..], before)
    modifies dest
    ensures off <= off' <= copylen && copylen - off' < w
    ensures CopiedAndSummed(w, e, p, src, off', csum', dest[..], before)
  {
    csum', off' := csum, off;
    var len := copylen - off;
    while len >= w
      invariant off <= off' <= copylen && len == copylen - off'
      invariant Aligned(w, srcAddress + off')
      invariant CopiedAndSummed(w, e, p, src, off', csum', dest[..], before)
      decreases len
    {
      var word := LoadWord(w, srcAddress, src, off');
      csum' := AddNextWord(w, e, src, off', word, csum', p);
      PutWord(w, word, dest, off', src, before);
      AlignStep(srcAddress + off', w);
      off', len := off' + w, len - w;
    }
  }

  /** Only the destination aligned: copy words in and store them, counting down (or up, where the source has just
      filled a partial word). */
  method CopyToAligned(w: nat, e: Endian, temp: seq<byte>, destAddress: nat, src: seq<byte>, dest: array<byte>,
                       copylen: nat, off: nat, csum: nat, ghost p: seq<byte>, ghost before: seq<byte>)
    returns (csum': nat, off': nat)
    requires 0 < w && off <= copylen <= |src| && copylen <= dest.Length && |temp| == w
    requires Aligned(w, destAddress + off)
    requires CopiedAndSummed(w, e, p, src, off, csum, dest[..], before)
    modifies dest
    ensures off <= off' <= copylen && copylen - off' < w
    ensures CopiedAndSummed(w, e, p, src, off', csum', dest[..], before)
  {
    csum', off' := csum, off;
    var len, word := copylen - off, temp;
    while len >= w
      invariant off <= off' <= copylen && len == copylen - off' && |word| == w
      invariant Aligned(w, destAddress + off')
      invariant CopiedAndSummed(w, e, p, src, off', csum', dest[..], before)
      decreases len
    {
      word := CopyWord(w, word, src, off');
      csum' := AddNextWord(w, e, src, off', word, csum', p);
      StoreWord(w, destAddress, word, dest, off', src, before);
      AlignStep(destAddress + off', w);
      off', len := off' + w, len - w;
    }
  }

  /** Any alignment: copy words in and out, counting down. */
  method CopyUnaligned(w: nat, e: Endian, temp: seq<byte>, src: seq<byte>, dest: array<byte>,
                       copylen: nat, off: nat, csum: nat, ghost p: seq<byte>, ghost before: seq<byte>)
    returns (csum': nat, off': nat)
    requires 0 < w && off <= copylen <= |src| && copylen <= dest.Length && |temp| == w
    requires CopiedAndSummed(w, e, p, src, off, csum, dest[..], before)
    modifies dest
    ensures off <= off' <= copylen && copylen - off' < w
    ensures CopiedAndSummed(w, e, p, src, off', csum', dest[..], before)
  {
    csum', off' := csum, off;
    var len, word := copylen - off, temp;
    while len >= w
      invariant off <= off' <= copylen && len == copylen - off' && |word| == w
      invariant CopiedAndSummed(w, e, p, src, off', csum', dest[..], before)
      decreases len
    {
      word := CopyWord(w, word, src, off');
      csum' := AddNextWord(w, e, src, off', word, csum', p);
      PutWord(w, word, dest, off', src, before);
      off', len := off' + w, len - w;
    }
  }

  /** Fill out the partial word from the source, and copy those bytes. */
  method CopyFill(w: nat, e: Endian, src: seq<byte>, dest: array<byte>, copylen: nat, carry: Carry)
    returns (csum: nat, off: nat)
    requires 0 < w && ValidCarry(w, carry) && w - carry.length <= copylen <= |src| && copylen <= dest.Length
    modifies dest
    ensures off == w - carry.length
    ensures CopiedAndSummed(w, e, Pending(w, carry), src, off, csum, dest[..], old(dest[..]))
  {
    csum, off := FillWord(w, e, src[..copylen], carry);
    assert src[..copylen][..off] == src[..off];
    CopyBytes(src, dest, 0, off, old(dest[..]));
  }

  /** Put all the source bytes into the partial word, and copy them. */
  method CopyPart(w: nat, e: Endian, src: seq<byte>, dest: array<byte>, copylen: nat, carry: Carry)
    returns (csum: nat, off: nat, carry': Carry)
    requires 0 < w && ValidCarry(w, carry) && copylen < w - carry.length && copylen <= |src| && copylen <= dest.Length
    modifies dest
    ensures off == copylen
    ensures Staged(w, e, Pending(w, carry), src[..copylen], off, csum, carry')
    ensures Copied(dest[..], old(dest[..]), src, off)
  {
    csum, carry' := FillPart(w, e, src[..copylen], carry);
    CarryOfIsValid(w, Pending(w, carry) + src[..copylen]);
    off := copylen;
    assert src[..copylen][..off] == src[..copylen];
    CopyBytes(src, dest, 0, copylen, old(dest[..]));
  }

  /** Nothing is pending after the word loops. */
  lemma LoopStages(w: nat, e: Endian, p: seq<byte>, src: seq<byte>, copylen: nat, off: nat, csum: nat,
                   dest: seq<byte>, before: seq<byte>)
    requires 0 < w && off <= copylen <= |src| && copylen - off < w
    requires CopiedAndSummed(w, e, p, src, off, csum, dest, before)
    ensures Staged(w, e, p, src[..copylen], off, csum, CarryOf(w, []))
  {
    CarryOfIsValid(w, []);
    assert src[..copylen][..off] == src[..off];
  }

  lemma NothingCopied(w: nat, e: Endian, carry: Carry, src: seq<byte>, dest: seq<byte>)
    requires 0 < w && ValidCarry(w, carry) && carry.length == 0
    ensures CopiedAndSummed(w, e, Pending(w, carry), src, 0, 0, dest, dest)
  {
    NothingSummed(w, e, Pending(w, carry));
    assert src[..0] == [];
  }

  /** Source and destination aligned, up to the leftover bytes. Whole words with nothing pending and no residue
      are all there is to do: then the routine returns here. */
  method BothAligned(w: nat, e: Endian, srcAddress: nat, destAddress: nat, src: seq<byte>, dest: array<byte>,
                     copylen: nat, residue: nat, carry: Carry)
    returns (csum: nat, off: nat, carry': Carry, done: bool)
    requires 0 < w && ValidCarry(w, carry) && copylen <= |src| && copylen <= dest.Length
    requires Aligned(w, srcAddress) && Aligned(w, destAddress)
    modifies dest
    ensures Staged(w, e, Pending(w, carry), src[..copylen], off, csum, carry')
    ensures Copied(dest[..], old(dest[..]), src, off)
    ensures done <==> carry.length == 0 && Aligned(w, copylen) && residue == 0
    ensures done ==> off == copylen
  {
    ghost var p, before := Pending(w, carry), dest[..];
    done := false;
    if carry.length != 0 && copylen < w - carry.length {
      csum, off, carry' := CopyPart(w, e, src, dest, copylen, carry);
      return;
    }
    if carry.length != 0 {
      csum, off := CopyFill(w, e, src, dest, copylen, carry);
      // Both are unaligned from here on.
      csum, off := CopyUnaligned(w, e, carry.last, src, dest, copylen, off, csum, p, before);
    } else {
      NothingCopied(w, e, carry, src, before);
      csum, off := CopyDirect(w, e, srcAddress, destAddress, src, dest, copylen, 0, 0, p, before);
      done := Aligned(w, copylen) && residue == 0;
    }
    carry' := CarryOf(w, []);
    LoopStages(w, e, p, src, copylen, off, csum, dest[..], before);
  }

  /** Only the source aligned. */
  method SourceAligned(w: nat, e: Endian, srcAddress: nat, destAddress: nat, src: seq<byte>, dest: array<byte>,
                       copylen: nat, carry: Carry)
    returns (csum: nat, off: nat, carry': Carry)
    requires 0 < w && ValidCarry(w, carry) && copylen <= |src| && copylen <= dest.Length
    requires Aligned(w, srcAddress) && !Aligned(w, destAddress)
    modifies dest
    ensures Staged(w, e, Pending(w, carry), src[..copylen], off, csum, carry')
    ensures Copied(dest[..], old(dest[..]), src, off)
  {
    ghost var p, before := Pending(w, carry), dest[..];
    if carry.length != 0 && copylen < w - carry.length {
      csum, off, carry' := CopyPart(w, e, src, dest, copylen, carry);
      return;
    }
    if carry.length != 0 {
      csum, off := CopyFill(w, e, src, dest, copylen, carry);
      // The source is unaligned from here on, the destination may be aligned now.
      if Aligned(w, destAddress + off) {
        csum, off := CopyToAligned(w, e, carry.last, destAddress, src, dest, copylen, off, csum, p, before);
      } else {
        csum, off := CopyUnaligned(w, e, carry.last, src, dest, copylen, off, csum, p, before);
      }
    } else {
      NothingCopied(w, e, carry, src, before);
      csum, off := CopyFromAligned(w, e, srcAddress, src, dest, copylen, 0, 0, p, before);
    }
    carry' := CarryOf(w, []);
    LoopStages(w, e, p, src, copylen, off, csum, dest[..], before);
  }

  /** Only the destination aligned. */
  method DestAligned(w: nat, e: Endian, srcAddress: nat, destAddress: nat, src: seq<byte>, dest: array<byte>,
                     copylen: nat, carry: Carry)
    returns (csum: nat, off: nat, carry': Carry)
    requires 0 < w && ValidCarry(w, carry) && copylen <= |src| && copylen <= dest.Length
    requires !Aligned(w, srcAddress) && Aligned(w, destAddress)
    modifies dest
    ensures Staged(w, e, Pending(w, carry), src[..copylen], off, csum, carry')
    ensures Copied(dest[..], old(dest[..]), src, off)
  {
    ghost var p, before := Pending(w, carry), dest[..];
    if carry.length != 0 && copylen < w - carry.length {
      csum, off, carry' := CopyPart(w, e, src, dest, copylen, carry);
      return;
    }
    if carry.length != 0 {
      csum, off := CopyFill(w, e, src, dest, copylen, carry);
      // The source may be aligned now, the destination is unaligned from here on.
      if Aligned(w, srcAddress + off) {
        csum, off := CopyFromAligned(w, e, srcAddress, src, dest, copylen, off, csum, p, before);
      } else {
        csum, off := CopyUnaligned(w, e, carry.last, src, dest, copylen, off, csum, p, before);
      }
    } else {
      NothingCopied(w, e, carry, src, before);
      csum, off := CopyToAligned(w, e, carry.last, destAddress, src, dest, copylen, 0, 0, p, before);
    }
    carry' := CarryOf(w, []);
    LoopStages(w, e, p, src, copylen, off, csum, dest[..], before);
  }

  /** Neither aligned. */
  method NeitherAligned(w: nat, e: Endian, srcAddress: nat, destAddress: nat, src: seq<byte>, dest: array<byte>,
                        copylen: nat, carry: Carry)
    returns (csum: nat, off: nat, carry': Carry)
    requires 0 < w && ValidCarry(w, carry) && copylen <= |src| && copylen <= dest.Length
    requires !Aligned(w, srcAddress) && !Aligned(w, destAddress)
    modifies dest
    ensures Staged(w, e, Pending(w, carry), src[..copylen], off, csum, carry')
    ensures Copied(dest[..], old(dest[..]), src, off)
  {
    ghost var p, before := Pending(w, carry), dest[..];
    if carry.length != 0 && copylen < w - carry.length {
      csum, off, carry' := CopyPart(w, e, src, dest, copylen, carry);
      return;
    }
    if carry.length != 0 {
      csum, off := CopyFill(w, e, src, dest, copylen, carry);
      // Either may be aligned now.
      if Aligned(w, srcAddress + off) && Aligned(w, destAddress + off) {
        csum, off := CopyDirect(w, e, srcAddress, destAddress, src, dest, copylen, off, csum, p, before);
      } else {
        csum, off := CopyUnaligned(w, e, carry.last, src, dest, copylen, off, csum, p, before);
      }
    } else {
      NothingCopied(w, e, carry, src, before);
      csum, off := CopyUnaligned(w, e, carry.last, src, dest, copylen, 0, 0, p, before);
    }
    carry' := CarryOf(w, []);
    LoopStages(w, e, p, src, copylen, off, csum, dest[..], before);
  }

  /** Past the copied bytes: first put the `rest` bytes left over from copying, and as many of the
      `residue` bytes after them as fit, into the partial word. */
  method FillResidue(w: nat, e: Endian, src: seq<byte>, off: nat, rest: nat, csum: nat, carry: Carry,
                     ghost p: seq<byte>)
    returns (csum': nat, off': nat, carry': Carry)
    requires 0 < w && ValidCarry(w, carry)
    requires off + rest < |src| && rest < w && (rest != 0 ==> carry.length == 0)
    requires Summed(w, e, p, src[..off], csum, Pending(w, carry))
    ensures off <= off' <= |src| && ValidCarry(w, carry')
    ensures Summed(w, e, p, src[..off'], csum', Pending(w, carry'))
    ensures off' < |src| ==> carry' == CarryOf(w, [])
  {
    var residue := |src| - off - rest;
    var n := if residue < w - rest - carry.length then rest + residue else w - carry.length;
    var temp;
    csum', temp := AddToPartial(w, e, csum, carry, src[off..off + n], p, src[..off]);
    off' := off + n;
    assert src[..off] + src[off..off'] == src[..off'];
    CarryOfIsValid(w, []);
    if residue < w - rest - carry.length {
      // All of it: the source steps its pointer by a whole word here, but reads nothing more through it.
      carry' := Carry(temp, carry.length + n);
      CarryOfIsValid(w, Pending(w, carry) + src[off..off']);
    } else {
      carry' := CarryOf(w, []);
    }
  }

  /** The checksum runs on past the copied bytes: `rest` of them are not summed yet. */
  method ResidueStage(w: nat, e: Endian, srcAddress: nat, src: seq<byte>, off: nat, rest: nat, csum: nat, carry: Carry,
                      ghost p: seq<byte>)
    returns (csum': nat, carry': Carry)
    requires 0 < w && ValidCarry(w, carry)
    requires off + rest < |src| && rest < w && (rest != 0 ==> carry.length == 0)
    requires Summed(w, e, p, src[..off], csum, Pending(w, carry))
    ensures Summed(w, e, p, src, csum', Tail(w, p + src))
    ensures carry' == CarryOf(w, Tail(w, p + src))
  {
    var off';
    csum', off', carry' := FillResidue(w, e, src, off, rest, csum, carry, p);
    CarryOfIsValid(w, []);
    if off' < |src| {
      if Aligned(w, srcAddress + off') {
        csum', off' := SumDirect(w, e, srcAddress, src, off', csum', p);
      } else {
        csum', off' := SumCopied(w, e, carry.last, src, off', csum', p);
      }
      if off' < |src| {
        var temp;
        csum', temp := AddToPartial(w, e, csum', carry', src[off'..], p, src[..off']);
        carry' := Carry(temp, |src| - off');
      }
    }
    assert src[..off'] + src[off'..] == src && src[..|src|] == src;
  }

  /** The bytes left over from the word loops, and the residue past the copied bytes. */
  method Finish(w: nat, e: Endian, srcAddress: nat, src: seq<byte>, dest: array<byte>, copylen: nat,
                csumlenresidue: nat, off: nat, csum: nat, carry: Carry, ghost p: seq<byte>, ghost before: seq<byte>)
    returns (csum': nat, carry': Carry)
    requires 0 < w && |src| == copylen + csumlenresidue && copylen <= dest.Length
    requires Staged(w, e, p, src[..copylen], off, csum, carry)
    requires Copied(dest[..], before, src, off)
    modifies dest
    ensures Copied(dest[..], before, src, copylen)
    ensures Summed(w, e, p, src, csum', Tail(w, p + src)) && carry' == CarryOf(w, Tail(w, p + src))
  {
    var rest := copylen - off;
    assert src[..copylen][..off] == src[..off] && src[..|src|] == src;
    csum', carry' := csum, carry;
    if rest != 0 {
      CopyBytes(src, dest, off, rest, before);
    }
    if rest != 0 && csumlenresidue == 0 {
      if carry.length != 0 {
        // No input reaches this branch.
        assert false;
      } else {
        var temp;
        csum', temp := AddToPartial(w, e, csum, carry, src[off..], p, src[..off]);
        carry' := Carry(temp, rest);
        assert src[..off] + src[off..] == src;
      }
    } else if csumlenresidue != 0 {
      csum', carry' := ResidueStage(w, e, srcAddress, src, off, rest, csum, carry, p);
    }
  }

  lemma CopiedExactly(dest: seq<byte>, before: seq<byte>, src: seq<byte>, n: nat)
    requires Copied(dest, before, src, n)
    ensures dest == src[..n] + before[n..]
  {
    assert dest == dest[..n] + dest[n..];
  }

  /** `ww_bcopy_uicsum_partial` and `ww_bcopy_csum_partial`: exactly the first `copylen` bytes are copied,
      and checksum and carry are those of the plain routine over max(copylen, csumlen) bytes. */
  method BcopyCsumPartial(w: nat, e: Endian, srcAddress: nat, destAddress: nat, src: seq<byte>, dest: array<byte>,
                          copylen: nat, csumlen: nat, carry: Carry)
    returns (csum: nat, carry': Carry)
    requires 0 < w && ValidCarry(w, carry)
    requires |src| == Max(copylen, csumlen) && copylen <= dest.Length
    modifies dest
    ensures dest[..] == src[..copylen] + old(dest[copylen..])
    ensures carry' == CarryOf(w, Tail(w, Pending(w, carry) + src))
    ensures csum == Wrap(w, Gain(w, e, Pending(w, carry), src))
  {
    ghost var p, before := Pending(w, carry), dest[..];
    var csumlenresidue := if csumlen > copylen then csumlen - copylen else 0;
    var off, done;
    if Aligned(w, srcAddress) && Aligned(w, destAddress) {
      csum, off, carry', done := BothAligned(w, e, srcAddress, destAddress, src, dest, copylen, csumlenresidue, carry);
      if done {
        assert src[..copylen] == src && src[..off] == src;
        CopiedExactly(dest[..], before, src, copylen);
        return;
      }
    } else if Aligned(w, srcAddress) {
      csum, off, carry' := SourceAligned(w, e, srcAddress, destAddress, src, dest, copylen, carry);
    } else if Aligned(w, destAddress) {
      csum, off, carry' := DestAligned(w, e, srcAddress, destAddress, src, dest, copylen, carry);
    } else {
      csum, off, carry' := NeitherAligned(w, e, srcAddress, destAddress, src, dest, copylen, carry);
    }
    csum, carry' := Finish(w, e, srcAddress, src, dest, copylen, csumlenresidue, off, csum, carry', p, before);
    CopiedExactly(dest[..], before, src, copylen);
  }
}
