/** Cumulative word checksums over buffers of any length and alignment (src/util/crc.c).
    The word size `w` is a parameter: 4 gives the `unsigned int` family, 8 the `unsigned long` one. */
module Checksum {
  import Wrapping

  newtype byte = x: int | 0 <= x < 256

  /** Host byte order of a word in memory. */
  datatype Endian = Little | Big

  // ------------------------------------------------------------------------
  // Reference: the zero-padded word sum of a byte string
  // ------------------------------------------------------------------------

  function Pow256(n: nat): (p: nat)
    ensures 0 < p
  {
    if n == 0 then 1 else 256 * Pow256(n - 1)
  }

  /** The unsigned integer whose memory image is `bytes`. */
  function WordValue(e: Endian, bytes: seq<byte>): nat {
    if bytes == [] then 0
    else match e
      case Little => bytes[0] as nat + 256 * WordValue(e, bytes[1..])
      case Big => 256 * WordValue(e, bytes[..|bytes| - 1]) + bytes[|bytes| - 1] as nat
  }

  function Zeros(n: nat): (z: seq<byte>)
    ensures |z| == n
  {
    seq(n, i => 0)
  }

  /** The memory image of a word whose first bytes are `bytes` and whose other bytes are zero. */
  function Pad(w: nat, bytes: seq<byte>): (image: seq<byte>)
    requires |bytes| <= w
    ensures |image| == w
  {
    bytes + Zeros(w - |bytes|)
  }

  /** Sum of the words of `s`, the last one padded with zero bytes (no modulus yet). */
  function PaddedSum(w: nat, e: Endian, s: seq<byte>): nat
    requires 0 < w
    decreases |s|
  {
    if |s| < w then WordValue(e, Pad(w, s))
    else WordValue(e, s[..w]) + PaddedSum(w, e, s[w..])
  }

  /** The bytes of `s` beyond its last whole word. */
  function Tail(w: nat, s: seq<byte>): (t: seq<byte>)
    requires 0 < w
    ensures |t| < w && |t| <= |s|
    decreases |s|
  {
    if |s| < w then s else Tail(w, s[w..])
  }

  function WholeSum(w: nat, e: Endian, s: seq<byte>): nat
    requires 0 < w
    decreases |s|
  {
    if |s| < w then 0 else WordValue(e, s[..w]) + WholeSum(w, e, s[w..])
  }

  lemma {:induction false} SplitSum(w: nat, e: Endian, a: seq<byte>, b: seq<byte>)
    requires 0 < w
    ensures PaddedSum(w, e, a + b) == WholeSum(w, e, a) + PaddedSum(w, e, Tail(w, a) + b)
    ensures Tail(w, a + b) == Tail(w, Tail(w, a) + b)
    decreases |a|
  {
    if |a| >= w {
      assert (a + b)[..w] == a[..w] && (a + b)[w..] == a[w..] + b;
      SplitSum(w, e, a[w..], b);
    }
  }

  lemma {:induction false} WholePlusTail(w: nat, e: Endian, s: seq<byte>)
    requires 0 < w
    ensures PaddedSum(w, e, s) == WholeSum(w, e, s) + WordValue(e, Pad(w, Tail(w, s)))
    decreases |s|
  {
    if |s| >= w { WholePlusTail(w, e, s[w..]); }
  }

  lemma {:induction false} TailLength(w: nat, s: seq<byte>)
    requires 0 < w
    ensures |Tail(w, s)| == |s| % w
    decreases |s|
  {
    if |s| < w {
      SmallMod(|s|, w);
    } else {
      TailLength(w, s[w..]);
      AlignStep(|s| - w, w);
    }
  }

  /** The tail is the end of the string. */
  lemma {:induction false} TailIsEnd(w: nat, s: seq<byte>)
    requires 0 < w
    ensures Tail(w, s) == s[|s| - |Tail(w, s)|..]
    decreases |s|
  {
    if |s| >= w { TailIsEnd(w, s[w..]); }
  }

  lemma SmallMod(a: nat, w: nat)
    requires a < w
    ensures a % w == a && a / w == 0
  {
  }

  lemma AlignStep(a: nat, w: nat)
    requires 0 < w
    ensures (a + w) % w == a % w
  {
    var q, r := a / w, a % w;
    assert a + w == (q + 1) * w + r;
    Wrapping.DivModUnique(a + w, w, q + 1, r);
  }

  // ------------------------------------------------------------------------
  // Unsigned arithmetic of one word
  // ------------------------------------------------------------------------

  /** The value of an unsigned word of `w` bytes after wrap-around. */
  function Wrap(w: nat, x: int): (r: nat)
    ensures r < Pow256(w)
  {
    Wrapping.Wrap(Pow256(w), x)
  }

  lemma WrapWrap(w: nat, a: int, b: int)
    ensures Wrap(w, Wrap(w, a) + b) == Wrap(w, a + b)
    ensures Wrap(w, b + Wrap(w, a)) == Wrap(w, a + b)
  {
    Wrapping.WrapWrap(Pow256(w), a, b);
  }

  // ------------------------------------------------------------------------
  // The state carried from call to call
  // ------------------------------------------------------------------------

  /** `*lastPartialInt`, as its memory image, and `*lastPartialLength`. */
  datatype Carry = Carry(last: seq<byte>, length: nat)

  /** The carry that stands for the pending bytes `t`: zero bytes beyond them. */
  function CarryOf(w: nat, t: seq<byte>): Carry
    requires |t| <= w
  {
    Carry(Pad(w, t), |t|)
  }

  predicate ValidCarry(w: nat, c: Carry) {
    && |c.last| == w && c.length < w
    && c.last[c.length..] == Zeros(w - c.length)
  }

  function Pending(w: nat, c: Carry): (t: seq<byte>)
    requires ValidCarry(w, c)
    ensures |t| < w && CarryOf(w, t) == c
  {
    assert c.last == c.last[..c.length] + c.last[c.length..];
    c.last[..c.length]
  }

  lemma CarryOfIsValid(w: nat, t: seq<byte>)
    requires |t| < w
    ensures ValidCarry(w, CarryOf(w, t)) && Pending(w, CarryOf(w, t)) == t
  {
  }

  /** What the bytes `done`, coming after the pending bytes `p`, add to the padded sum. */
  function Gain(w: nat, e: Endian, p: seq<byte>, done: seq<byte>): int
    requires 0 < w
  {
    PaddedSum(w, e, p + done) - PaddedSum(w, e, p)
  }

  /** After the bytes `done` the running checksum is `csum` and the bytes `t` are pending. */
  ghost predicate Summed(w: nat, e: Endian, p: seq<byte>, done: seq<byte>, csum: nat, t: seq<byte>)
    requires 0 < w
  {
    csum == Wrap(w, Gain(w, e, p, done)) && t == Tail(w, p + done)
  }

  function Complete(w: nat, t: seq<byte>): (t': seq<byte>) {
    if |t| == w then [] else t
  }

  lemma {:induction false} ZeroWord(e: Endian, n: nat)
    ensures WordValue(e, Zeros(n)) == 0
  {
    if n > 0 {
      ZeroWord(e, n - 1);
      assert Zeros(n)[1..] == Zeros(n - 1) && Zeros(n)[..|Zeros(n)| - 1] == Zeros(n - 1);
    }
  }

  /** One more piece of at most a word: the sum grows by new word minus old word. */
  lemma Extend(w: nat, e: Endian, p: seq<byte>, done: seq<byte>, t: seq<byte>, b: seq<byte>)
    requires 0 < w && t == Tail(w, p + done)
    requires |t| + |b| <= w
    ensures Gain(w, e, p, done + b) ==
            Gain(w, e, p, done) + WordValue(e, Pad(w, t + b)) - WordValue(e, Pad(w, t))
    ensures Tail(w, p + (done + b)) == Complete(w, t + b)
  {
    var a := p + done;
    assert p + (done + b) == a + b;
    SplitSum(w, e, a, b);
    WholePlusTail(w, e, a);
    PieceSum(w, e, t + b);
  }

  lemma PieceSum(w: nat, e: Endian, s: seq<byte>)
    requires 0 < w && |s| <= w
    ensures PaddedSum(w, e, s) == WordValue(e, Pad(w, s))
    ensures Tail(w, s) == Complete(w, s)
  {
    if |s| == w {
      assert s[..w] == s && s[w..] == [] && Pad(w, s) == s && Pad(w, []) == Zeros(w);
      ZeroWord(e, w);
      assert PaddedSum(w, e, []) == 0;
      assert Tail(w, []) == [];
    }
  }

  /** `memcpy((char *) &temp + offset, bytes, |bytes|)` */
  function Overlay(image: seq<byte>, offset: nat, bytes: seq<byte>): (r: seq<byte>)
    requires offset + |bytes| <= |image|
    ensures |r| == |image|
  {
    image[..offset] + bytes + image[offset + |bytes|..]
  }

  lemma OverlayPad(w: nat, t: seq<byte>, b: seq<byte>)
    requires |t| + |b| <= w
    ensures Overlay(Pad(w, t), |t|, b) == Pad(w, t + b)
  {
  }

  /** `csum += x` in unsigned arithmetic, where `x` may itself have wrapped. */
  method AddWrapped(w: nat, csum: nat, x: int, ghost total: int) returns (csum': nat)
    requires csum == Wrap(w, total)
    ensures csum' == Wrap(w, total + x)
  {
    WrapWrap(w, x, csum);
    WrapWrap(w, total, x);
    csum' := Wrap(w, csum + Wrap(w, x));
  }

  /** Fill bytes into the partial word and add what that changes to the checksum. */
  method AddToPartial(w: nat, e: Endian, csum: nat, carry: Carry, bytes: seq<byte>,
                      ghost p: seq<byte>, ghost done: seq<byte>)
    returns (csum': nat, temp: seq<byte>)
    requires 0 < w && ValidCarry(w, carry) && |bytes| <= w - carry.length
    requires Summed(w, e, p, done, csum, Pending(w, carry))
    ensures Summed(w, e, p, done + bytes, csum', Complete(w, Pending(w, carry) + bytes))
    ensures temp == Pad(w, Pending(w, carry) + bytes)
  {
    ghost var t := Pending(w, carry);
    temp := Overlay(carry.last, carry.length, bytes);
    OverlayPad(w, t, bytes);
    Extend(w, e, p, done, t, bytes);
    csum' := AddWrapped(w, csum, WordValue(e, temp) - WordValue(e, carry.last), Gain(w, e, p, done));
  }

  /** `csum += word` while no partial word is pending. */
  method AddWholeWord(w: nat, e: Endian, csum: nat, word: seq<byte>, ghost p: seq<byte>, ghost done: seq<byte>)
    returns (csum': nat)
    requires 0 < w == |word|
    requires Summed(w, e, p, done, csum, [])
    ensures Summed(w, e, p, done + word, csum', [])
  {
    Extend(w, e, p, done, [], word);
    ZeroWord(e, w);
    assert [] + word == word && Pad(w, word) == word && Pad(w, []) == Zeros(w);
    csum' := AddWrapped(w, csum, WordValue(e, word), Gain(w, e, p, done));
  }

  predicate Aligned(w: nat, address: nat)
    requires 0 < w
  {
    address % w == 0
  }

  /** A load through a word pointer, which has to be aligned. */
  method LoadWord(w: nat, address: nat, data: seq<byte>, off: nat) returns (word: seq<byte>)
    requires 0 < w && off + w <= |data| && Aligned(w, address + off)
    ensures word == data[off..off + w]
  {
    word := data[off..off + w];
  }

  /** `memcpy(&temp, src, sizeof(temp))` */
  method CopyWord(w: nat, temp: seq<byte>, data: seq<byte>, off: nat) returns (word: seq<byte>)
    requires |temp| == w && off + w <= |data|
    ensures word == data[off..off + w]
  {
    word := Overlay(temp, 0, data[off..off + w]);
  }

  /** The bytes of `n` words. */
  function Words(n: nat, w: nat): nat {
    if n == 0 then 0 else Words(n - 1, w) + w
  }

  /** Counting whole words leaves less than a word, and nothing of exactly the aligned lengths. */
  lemma {:induction false} WordSteps(len: nat, w: nat)
    requires 0 < w
    ensures Words(len / w, w) <= len < Words(len / w, w) + w
    ensures Aligned(w, len) <==> Words(len / w, w) == len
    decreases len
  {
    if len < w {
      SmallMod(len, w);
    } else {
      WordSteps(len - w, w);
      DivStep(len - w, w);
      AlignStep(len - w, w);
    }
  }

  lemma DivStep(a: nat, w: nat)
    requires 0 < w
    ensures (a + w) / w == a / w + 1
  {
    var q, r := a / w, a % w;
    assert a + w == (q + 1) * w + r;
    Wrapping.DivModUnique(a + w, w, q + 1, r);
  }

  lemma {:induction false} WordFits(i: nat, n: nat, w: nat)
    requires i < n
    ensures Words(i + 1, w) == Words(i, w) + w <= Words(n, w)
    decreases n
  {
    if i < n - 1 { WordFits(i, n - 1, w); }
  }

  /** The counted loop over an aligned source: from offset `off` on, add every whole word. */
  method SumDirect(w: nat, e: Endian, address: nat, data: seq<byte>, off: nat, csum: nat, ghost p: seq<byte>)
    returns (csum': nat, off': nat)
    requires 0 < w && off <= |data| && Aligned(w, address + off)
    requires Summed(w, e, p, data[..off], csum, [])
    ensures off <= off' <= |data| && |data| - off' < w
    ensures Aligned(w, |data| - off) ==> off' == |data|
    ensures Summed(w, e, p, data[..off'], csum', [])
  {
    csum', off' := csum, off;
    var i, n := 0, (|data| - off) / w;
    WordSteps(|data| - off, w);
    while i < n
      invariant i <= n && off' == off + Words(i, w) <= off + Words(n, w)
      invariant Aligned(w, address + off') && Summed(w, e, p, data[..off'], csum', [])
    {
      WordFits(i, n, w);
      var word := LoadWord(w, address, data, off');
      csum' := AddWholeWord(w, e, csum', word, p, data[..off']);
      assert data[..off'] + word == data[..off' + w];
      AlignStep(address + off', w);
      off', i := off' + w, i + 1;
    }
  }

  /** The counted loop that copies each word first. */
  method SumCopied(w: nat, e: Endian, temp: seq<byte>, data: seq<byte>, off: nat, csum: nat, ghost p: seq<byte>)
    returns (csum': nat, off': nat)
    requires 0 < w == |temp| && off <= |data|
    requires Summed(w, e, p, data[..off], csum, [])
    ensures off <= off' <= |data| && |data| - off' < w
    ensures Summed(w, e, p, data[..off'], csum', [])
  {
    csum', off' := csum, off;
    var i, n, word := 0, (|data| - off) / w, temp;
    WordSteps(|data| - off, w);
    while i < n
      invariant i <= n && off' == off + Words(i, w) <= off + Words(n, w) && |word| == w
      invariant Summed(w, e, p, data[..off'], csum', [])
    {
      WordFits(i, n, w);
      word := CopyWord(w, word, data, off');
      csum' := AddWholeWord(w, e, csum', word, p, data[..off']);
      assert data[..off'] + word == data[..off' + w];
      off', i := off' + w, i + 1;
    }
  }

  /** The loop that copies each word first and counts the length down. */
  method SumDown(w: nat, e: Endian, temp: seq<byte>, data: seq<byte>, csum: nat, ghost p: seq<byte>)
    returns (csum': nat, off: nat)
    requires 0 < w == |temp| && Summed(w, e, p, data[..0], csum, [])
    ensures off <= |data| && |data| - off < w
    ensures Summed(w, e, p, data[..off], csum', [])
  {
    csum', off := csum, 0;
    var csumlen, word := |data|, temp;
    while csumlen >= w
      invariant off <= |data| && csumlen == |data| - off && |word| == w
      invariant Summed(w, e, p, data[..off], csum', [])
      decreases csumlen
    {
      word := CopyWord(w, word, data, off);
      csum' := AddWholeWord(w, e, csum', word, p, data[..off]);
      assert data[..off] + word == data[..off + w];
      off, csumlen := off + w, csumlen - w;
    }
  }

  /** There is enough data to fill out the partial word. */
  method FillWord(w: nat, e: Endian, data: seq<byte>, carry: Carry) returns (csum: nat, off: nat)
    requires 0 < w && ValidCarry(w, carry) && w - carry.length <= |data|
    ensures off == w - carry.length
    ensures Summed(w, e, Pending(w, carry), data[..off], csum, [])
  {
    NothingSummed(w, e, Pending(w, carry));
    off := w - carry.length;
    var temp;
    csum, temp := AddToPartial(w, e, 0, carry, data[..off], Pending(w, carry), []);
    assert [] + data[..off] == data[..off];
  }

  /** All the data still fits into the partial word. */
  method FillPart(w: nat, e: Endian, data: seq<byte>, carry: Carry) returns (csum: nat, carry': Carry)
    requires 0 < w && ValidCarry(w, carry) && |data| < w - carry.length
    ensures carry' == CarryOf(w, Pending(w, carry) + data)
    ensures Summed(w, e, Pending(w, carry), data, csum, Pending(w, carry) + data)
  {
    NothingSummed(w, e, Pending(w, carry));
    var temp;
    csum, temp := AddToPartial(w, e, 0, carry, data, Pending(w, carry), []);
    assert [] + data == data;
    carry' := Carry(temp, carry.length + |data|);
  }

  lemma NothingSummed(w: nat, e: Endian, p: seq<byte>)
    requires 0 < w && |p| < w
    ensures Summed(w, e, p, [], 0, p)
  {
    assert p + [] == p;
  }

  /** What every branch of the first stage leaves: `off` bytes summed, and less than a word of data left
      over only when no partial word is pending. */
  ghost predicate Staged(w: nat, e: Endian, p: seq<byte>, data: seq<byte>, off: nat, csum: nat, carry: Carry)
    requires 0 < w
  {
    && off <= |data| && |data| - off < w
    && ValidCarry(w, carry)
    && Summed(w, e, p, data[..off], csum, Pending(w, carry))
    && (off < |data| ==> carry.length == 0)
  }

  /** `ww_uicsum_partial` and `ww_csum_partial` on an aligned source, up to the leftover bytes. Whole words with
      nothing pending are all there is to do: then the routine returns here. */
  method AlignedStage(w: nat, e: Endian, address: nat, data: seq<byte>, carry: Carry)
    returns (csum: nat, off: nat, carry': Carry, done: bool)
    requires 0 < w && ValidCarry(w, carry) && Aligned(w, address)
    ensures Staged(w, e, Pending(w, carry), data, off, csum, carry')
    ensures done <==> carry.length == 0 && Aligned(w, |data|)
    ensures done ==> off == |data|
  {
    ghost var p := Pending(w, carry);
    CarryOfIsValid(w, []);
    done := false;
    if carry.length != 0 {
      if |data| >= w - carry.length {
        csum, off := FillWord(w, e, data, carry);
        // The source is unaligned from here on.
        csum, off := SumCopied(w, e, carry.last, data, off, csum, p);
        carry' := CarryOf(w, []);
      } else {
        csum, carry' := FillPart(w, e, data, carry);
        CarryOfIsValid(w, p + data);
        off := |data|;
        assert data[..off] == data;
      }
    } else {
      NothingSummed(w, e, p);
      assert data[..0] == [];
      csum, off := SumDirect(w, e, address, data, 0, 0, p);
      carry' := CarryOf(w, []);
      done := Aligned(w, |data|);
    }
  }

  /** The same on an unaligned source. */
  method UnalignedStage(w: nat, e: Endian, address: nat, data: seq<byte>, carry: Carry)
    returns (csum: nat, off: nat, carry': Carry)
    requires 0 < w && ValidCarry(w, carry) && !Aligned(w, address)
    ensures Staged(w, e, Pending(w, carry), data, off, csum, carry')
  {
    ghost var p := Pending(w, carry);
    assert data[..|data|] == data && data[..0] == [];
    CarryOfIsValid(w, []);
    if carry.length != 0 {
      if |data| >= w - carry.length {
        csum, off := FillWord(w, e, data, carry);
        // The source may be aligned now.
        if Aligned(w, address + off) {
          csum, off := SumDirect(w, e, address, data, off, csum, p);
        } else {
          csum, off := SumCopied(w, e, carry.last, data, off, csum, p);
        }
        carry' := CarryOf(w, []);
      } else {
        csum, carry' := FillPart(w, e, data, carry);
        CarryOfIsValid(w, p + data);
        off := |data|;
      }
    } else {
      NothingSummed(w, e, p);
      csum, off := SumDown(w, e, carry.last, data, 0, p);
      carry' := CarryOf(w, []);
    }
  }

  /** `ww_uicsum_partial` and `ww_csum_partial`. */
  method CsumPartial(w: nat, e: Endian, address: nat, data: seq<byte>, carry: Carry) returns (csum: nat, carry': Carry)
    requires 0 < w && ValidCarry(w, carry)
    ensures carry' == CarryOf(w, Tail(w, Pending(w, carry) + data))
    ensures csum == Wrap(w, Gain(w, e, Pending(w, carry), data))
  {
    ghost var p := Pending(w, carry);
    var off, done;
    if Aligned(w, address) {
      csum, off, carry', done := AlignedStage(w, e, address, data, carry);
      assert data[..|data|] == data;
      if done {
        return;
      }
    } else {
      csum, off, carry' := UnalignedStage(w, e, address, data, carry);
    }
    assert data[..off] + data[off..] == data && data[..|data|] == data;
    if off < |data| {
      if carry'.length != 0 {
        // The source fills the partial word once more here; no input reaches this branch.
        assert false;
      } else {
        var temp;
        csum, temp := AddToPartial(w, e, csum, carry', data[off..], p, data[..off]);
        assert [] + data[off..] == data[off..];
        carry' := Carry(temp, |data| - off);
      }
    }
  }

  // ------------------------------------------------------------------------
  // Any cutting of a byte string into calls
  // ------------------------------------------------------------------------

  datatype Chunk = Chunk(address: nat, data: seq<byte>)

  function Joined(chunks: seq<Chunk>): seq<byte> {
    if chunks == [] then [] else Joined(chunks[..|chunks| - 1]) + chunks[|chunks| - 1].data
  }

  /** Adding one call's checksum moves the total on to the longer string. */
  lemma ChunkSum(w: nat, e: Endian, before: seq<byte>, data: seq<byte>, total: nat, csum: nat)
    requires 0 < w
    requires total == Wrap(w, PaddedSum(w, e, before))
    requires csum == Wrap(w, Gain(w, e, Tail(w, before), data))
    ensures Wrap(w, total + csum) == Wrap(w, PaddedSum(w, e, before + data))
  {
    SplitSum(w, e, before, data);
    WholePlusTail(w, e, before);
    PieceSum(w, e, Tail(w, before));
    WrapWrap(w, Gain(w, e, Tail(w, before), data), total);
    WrapWrap(w, PaddedSum(w, e, before), Gain(w, e, Tail(w, before), data));
  }

  /** The checksums of successive calls add up to the padded word sum of the whole string. */
  method CsumChunks(w: nat, e: Endian, chunks: seq<Chunk>) returns (total: nat, carry: Carry)
    requires 0 < w
    ensures total == Wrap(w, PaddedSum(w, e, Joined(chunks)))
    ensures carry == CarryOf(w, Tail(w, Joined(chunks)))
  {
    total, carry := 0, CarryOf(w, []);
    EmptySum(w, e);
    for i := 0 to |chunks|
      invariant total == Wrap(w, PaddedSum(w, e, Joined(chunks[..i])))
      invariant carry == CarryOf(w, Tail(w, Joined(chunks[..i])))
    {
      ghost var before := Joined(chunks[..i]);
      assert chunks[..i + 1][..i] == chunks[..i];
      CarryOfIsValid(w, Tail(w, before));
      SplitSum(w, e, before, chunks[i].data);
      var csum;
      csum, carry := CsumPartial(w, e, chunks[i].address, chunks[i].data, carry);
      ChunkSum(w, e, before, chunks[i].data, total, csum);
      total := AddWords(w, total, csum);
    }
    assert chunks[..|chunks|] == chunks;
  }

  function AddWords(w: nat, a: nat, b: nat): (r: nat) {
    Wrap(w, a + b)
  }

  lemma EmptySum(w: nat, e: Endian)
    requires 0 < w
    ensures PaddedSum(w, e, []) == 0 && Wrap(w, 0) == 0
  {
    ZeroWord(e, w);
    assert Pad(w, []) == Zeros(w);
  }

  /** `ww_uicsum` and `ww_csum`: the one-shot forms. */
  method Csum(w: nat, e: Endian, address: nat, data: seq<byte>) returns (csum: nat)
    requires 0 < w
    ensures csum == Wrap(w, PaddedSum(w, e, data))
    ensures csum == Wrap(w, ByteSum(w, e, data))
    ensures |data| == 1 ==> csum == data[0] as nat * (if e.Little? then 1 else Pow256(w - 1))
  {
    SumOfBytes(w, e, data);
    if |data| == 1 { OneByteSum(w, e, data[0]); }
    CarryOfIsValid(w, []);
    EmptySum(w, e);
    assert [] + data == data;
    var carry;
    csum, carry := CsumPartial(w, e, address, data, CarryOf(w, []));
  }

  // ------------------------------------------------------------------------
  // Byte order: what every single byte counts
  // ------------------------------------------------------------------------

  lemma {:induction false} PowAdd(m: nat, n: nat)
    ensures Pow256(m + n) == Pow256(m) * Pow256(n)
  {
    if m > 0 { PowAdd(m - 1, n); }
  }

  /** The numbers of values of both word types. */
  lemma PowValues()
    ensures Pow256(1) == 0x100 && Pow256(4) == 0x1_0000_0000 && Pow256(8) == 0x1_0000_0000_0000_0000
  {
    assert Pow256(0) == 1 && Pow256(1) == 0x100;
    PowAdd(1, 1);
    PowAdd(2, 2);
    PowAdd(4, 4);
  }

  /** On a little-endian host the first bytes count least. */
  lemma {:induction false} LittleAppend(a: seq<byte>, b: seq<byte>)
    ensures WordValue(Little, a + b) == WordValue(Little, a) + Pow256(|a|) * WordValue(Little, b)
  {
    if a == [] {
      assert a + b == b;
    } else {
      assert (a + b)[1..] == a[1..] + b;
      LittleAppend(a[1..], b);
      assert 256 * (Pow256(|a| - 1) * WordValue(Little, b)) == Pow256(|a|) * WordValue(Little, b);
    }
  }

  /** On a big-endian host they count most. */
  lemma {:induction false} BigAppend(a: seq<byte>, b: seq<byte>)
    ensures WordValue(Big, a + b) == WordValue(Big, a) * Pow256(|b|) + WordValue(Big, b)
  {
    if b == [] {
      assert a + b == a;
    } else {
      assert (a + b)[..|a + b| - 1] == a + b[..|b| - 1];
      BigAppend(a, b[..|b| - 1]);
      assert 256 * (WordValue(Big, a) * Pow256(|b| - 1)) == WordValue(Big, a) * Pow256(|b|);
    }
  }

  lemma OneByteValue(e: Endian, x: byte)
    ensures WordValue(e, [x]) == x as nat
  {
    assert [x][1..] == [] && [x][..0] == [];
  }

  /** What a byte at place `i` of a word counts. */
  function Weight(w: nat, e: Endian, i: nat): nat
    requires i < w
  {
    match e
    case Little => Pow256(i)
    case Big => Pow256(w - 1 - i)
  }

  /** The sum of all bytes, each with the weight of its place in its word. */
  function ByteSum(w: nat, e: Endian, s: seq<byte>): nat
    requires 0 < w
  {
    if s == [] then 0
    else
      var n := |s| - 1;
      ByteSum(w, e, s[..n]) + s[n] as nat * Weight(w, e, n % w)
  }

  /** A byte in place of a zero byte adds its weight. */
  lemma {:induction false} LittlePlace(t: seq<byte>, x: byte, z: seq<byte>)
    ensures WordValue(Little, t + ([x] + z)) == WordValue(Little, t + ([0] + z)) + x as nat * Pow256(|t|)
  {
    var a, b := t + ([x] + z), t + ([0] + z);
    if t == [] {
      assert a[1..] == z && b[1..] == z;
    } else {
      LittlePlace(t[1..], x, z);
      assert a[1..] == t[1..] + ([x] + z) && b[1..] == t[1..] + ([0] + z);
      Times256(x as nat, Pow256(|t| - 1));
    }
  }

  lemma {:induction false} BigPlace(t: seq<byte>, x: byte, z: seq<byte>)
    ensures WordValue(Big, (t + [x]) + z) == WordValue(Big, (t + [0]) + z) + x as nat * Pow256(|z|)
  {
    var a, b, n := (t + [x]) + z, (t + [0]) + z, |t| + |z|;
    if z == [] {
      assert a[..n] == t && b[..n] == t && a[n] == x && b[n] == 0;
    } else {
      var front := z[..|z| - 1];
      BigPlace(t, x, front);
      assert a[..n] == (t + [x]) + front && b[..n] == (t + [0]) + front && a[n] == b[n];
      Times256(x as nat, Pow256(|z| - 1));
    }
  }

  lemma Times256(a: nat, b: nat)
    ensures 256 * (a * b) == a * (256 * b)
  {
  }

  /** One more byte of a padded word adds its weight. */
  lemma PadOneMore(w: nat, e: Endian, t: seq<byte>, x: byte)
    requires |t| < w
    ensures WordValue(e, Pad(w, t + [x])) == WordValue(e, Pad(w, t)) + x as nat * Weight(w, e, |t|)
  {
    var z := Zeros(w - |t| - 1);
    if e.Little? {
      assert Pad(w, t) == t + ([0] + z) && Pad(w, t + [x]) == t + ([x] + z);
      LittlePlace(t, x, z);
    } else {
      assert Pad(w, t) == (t + [0]) + z && Pad(w, t + [x]) == (t + [x]) + z;
      BigPlace(t, x, z);
    }
  }

  lemma OneMoreByte(w: nat, e: Endian, s: seq<byte>, x: byte)
    requires 0 < w
    ensures PaddedSum(w, e, s + [x]) == PaddedSum(w, e, s) + x as nat * Weight(w, e, |s| % w)
  {
    TailLength(w, s);
    assert [] + s == s && [] + (s + [x]) == s + [x];
    Extend(w, e, [], s, Tail(w, s), [x]);
    PadOneMore(w, e, Tail(w, s), x);
  }

  /** The word sum is the sum of all bytes by place: on a little-endian host the first byte of a word counts 1, on a
      big-endian one the last. */
  lemma {:induction false} SumOfBytes(w: nat, e: Endian, s: seq<byte>)
    requires 0 < w
    ensures PaddedSum(w, e, s) == ByteSum(w, e, s)
  {
    if s == [] {
      EmptySum(w, e);
    } else {
      var n := |s| - 1;
      SumOfBytes(w, e, s[..n]);
      OneMoreByte(w, e, s[..n], s[n]);
      assert s[..n] + [s[n]] == s;
    }
  }

  lemma OneByteSum(w: nat, e: Endian, x: byte)
    requires 0 < w
    ensures Wrap(w, ByteSum(w, e, [x])) == x as nat * (if e.Little? then 1 else Pow256(w - 1))
  {
    assert [x][..0] == [];
    SmallMod(0, w);
    var n := x as nat * Weight(w, e, 0);
    PowAdd(1, w - 1);
    assert Pow256(0) == 1 && n < Pow256(w);
  }

  // ------------------------------------------------------------------------
  // A word variable is its memory image; damage to one word is always seen
  // ------------------------------------------------------------------------

  lemma {:induction false} WordValueBound(e: Endian, bytes: seq<byte>)
    ensures WordValue(e, bytes) < Pow256(|bytes|)
  {
    if bytes != [] {
      match e
      case Little => WordValueBound(e, bytes[1..]);
      case Big => WordValueBound(e, bytes[..|bytes| - 1]);
    }
  }

  /** Equal word values come from equal memory images. */
  lemma {:induction false} WordValueInjective(e: Endian, a: seq<byte>, b: seq<byte>)
    requires |a| == |b| && WordValue(e, a) == WordValue(e, b)
    ensures a == b
  {
    if a != [] {
      match e {
        case Little =>
          WordValueInjective(e, a[1..], b[1..]);
          assert a == [a[0]] + a[1..] && b == [b[0]] + b[1..];
        case Big =>
          var n := |a| - 1;
          WordValueInjective(e, a[..n], b[..n]);
          assert a == a[..n] + [a[n]] && b == b[..n] + [b[n]];
      }
    }
  }

  /** The two strings have equal lengths and agree outside the `k`-th word. */
  ghost predicate DifferInWord(w: nat, k: nat, a: seq<byte>, b: seq<byte>) {
    && |a| == |b| && a != b
    && forall i :: 0 <= i < |a| && !(k * w <= i < k * w + w) ==> a[i] == b[i]
  }

  lemma {:induction false} OneWordGap(w: nat, e: Endian, k: nat, a: seq<byte>, b: seq<byte>)
    requires 0 < w && DifferInWord(w, k, a, b)
    ensures PaddedSum(w, e, a) != PaddedSum(w, e, b)
    ensures PaddedSum(w, e, a) < PaddedSum(w, e, b) + Pow256(w) && PaddedSum(w, e, b) < PaddedSum(w, e, a) + Pow256(w)
    decreases k
  {
    if k == 0 {
      var x, y := if |a| < w then Pad(w, a) else a[..w], if |a| < w then Pad(w, b) else b[..w];
      if |a| < w {
        assert a == x[..|a|] && b == y[..|a|];
      } else {
        assert a[w..] == b[w..];
        assert a == a[..w] + a[w..] && b == b[..w] + b[w..];
      }
      WordValueBound(e, x);
      WordValueBound(e, y);
      if WordValue(e, x) == WordValue(e, y) { WordValueInjective(e, x, y); }
    } else {
      assert k * w == (k - 1) * w + w;
      assert (k - 1) * w >= 0;
      if |a| >= w {
        assert a[..w] == b[..w];
        assert a == a[..w] + a[w..] && b == b[..w] + b[w..];
        OneWordGap(w, e, k - 1, a[w..], b[w..]);
      }
    }
  }

  /** Damage confined to one word always changes the checksum. */
  lemma OneWordDetected(w: nat, e: Endian, k: nat, a: seq<byte>, b: seq<byte>)
    requires 0 < w && |a| == |b| && a != b
    requires forall i :: 0 <= i < |a| && !(k * w <= i < k * w + w) ==> a[i] == b[i]
    ensures Wrap(w, PaddedSum(w, e, a)) != Wrap(w, PaddedSum(w, e, b))
  {
    OneWordGap(w, e, k, a, b);
    var x, y := PaddedSum(w, e, a), PaddedSum(w, e, b);
    if x < y { Wrapping.WrapTurn(Pow256(w), x, y); } else { Wrapping.WrapTurn(Pow256(w), y, x); }
  }
}
