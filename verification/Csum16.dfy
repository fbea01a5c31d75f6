/** The folded 16-bit checksum (`ww_csum16` in src/util/crc.h). */
module Csum16 {
  import opened Checksum

  /** Sum of the 16-bit words of the buffer; a last odd byte counts as itself. */
  function WordSum16(e: Endian, s: seq<byte>): nat
    decreases |s|
  {
    if s == [] then 0
    else if |s| == 1 then s[0] as nat
    else WordValue(e, s[..2]) + WordSum16(e, s[2..])
  }

  const TWO16 := 0x1_0000
  const TWO32 := 0x1_0000_0000

  /** Folding keeps the value modulo 65535 and never turns a positive sum into zero. */
  ghost predicate SameResidue(a: nat, b: nat) {
    a % 0xFFFF == b % 0xFFFF && (a == 0 <==> b == 0)
  }

  lemma FoldStep(csum: nat)
    requires csum < TWO32
    ensures SameResidue(csum, csum % TWO16 + csum / TWO16)
    ensures csum / TWO16 != 0 ==> csum % TWO16 + csum / TWO16 < csum
  {
    assert csum == (csum % TWO16 + csum / TWO16) + 0xFFFF * (csum / TWO16);
  }

  lemma Word16Bound(e: Endian, b: seq<byte>)
    requires |b| == 2
    ensures WordValue(e, b) < TWO16
  {
    WordValueBound(e, b);
    assert Pow256(2) == 256 * Pow256(1) == 256 * 256 * Pow256(0);
  }

  /** `csum += word` in the 32-bit accumulator. */
  method Add32(csum: nat, word: nat, ghost total: nat) returns (csum': nat)
    requires csum == total % TWO32
    ensures csum' == (total + word) % TWO32
  {
    csum' := (csum + word) % TWO32;
  }

  /** The fold loop. */
  method Fold(csum: nat) returns (r: nat)
    requires csum < TWO32
    ensures r < TWO16 && SameResidue(r, csum)
  {
    r := csum;
    while r / TWO16 != 0
      invariant r < TWO32 && SameResidue(r, csum)
      decreases r
    {
      FoldStep(r);
      r := r % TWO16 + r / TWO16;
    }
  }

  /** `ww_csum16` with its 32-bit accumulator. */
  method Csum16(e: Endian, source: seq<byte>) returns (r: nat)
    ensures r < TWO16
    ensures SameResidue(r, WordSum16(e, source) % TWO32)
  {
    var off, csumlen, csum := 0, |source|, 0;
    ghost var total: nat := 0;
    assert source[0..] == source;
    while csumlen > 1
      invariant off <= |source| && csumlen == |source| - off
      invariant csum == total % TWO32 && total + WordSum16(e, source[off..]) == WordSum16(e, source)
    {
      var word := WordValue(e, source[off..off + 2]);
      assert source[off..][..2] == source[off..off + 2] && source[off..][2..] == source[off + 2..];
      csum := Add32(csum, word, total);
      total := total + word;
      off, csumlen := off + 2, csumlen - 2;
    }
    if csumlen > 0 {
      csum := Add32(csum, source[off] as nat, total);
    }
    r := Fold(csum);
  }

  /** 65537 words cannot overflow the accumulator. */
  lemma {:induction false} SumBound(e: Endian, s: seq<byte>)
    ensures WordSum16(e, s) <= (|s| + 1) / 2 * 0xFFFF
    decreases |s|
  {
    if |s| >= 2 {
      Word16Bound(e, s[..2]);
      SumBound(e, s[2..]);
    }
  }

  /** The result carries the true sum modulo 65535 exactly when the number of lost carries out of the
      32-bit accumulator is a multiple of 65535; with none lost it is zero only for the zero sum. */
  lemma ExactResidue(e: Endian, s: seq<byte>, r: nat)
    requires SameResidue(r, WordSum16(e, s) % TWO32)
    ensures r % 0xFFFF == WordSum16(e, s) % 0xFFFF <==> (WordSum16(e, s) / TWO32) % 0xFFFF == 0
    ensures |s| <= 2 * 65537 ==> SameResidue(r, WordSum16(e, s))
  {
    var t := WordSum16(e, s);
    var q, c := t / TWO32, t % TWO32;
    SumBound(e, s);
    assert |s| <= 2 * 65537 ==> (|s| + 1) / 2 <= 65537;
    LostCarries(c, q, t);
  }

  lemma LostCarries(c: nat, q: nat, t: nat)
    requires t == c + TWO32 * q
    ensures c % 0xFFFF == t % 0xFFFF <==> q % 0xFFFF == 0
  {
    var m := 0xFFFF;
    assert t == c + q + m * (0x1_0001 * q);
    assert t % m == (c + q) % m;
  }

  /** The sum by single bytes: the first byte of each word counts 1 on a little-endian host and 256 on a big-endian
      one, the second one the other way round. A last odd byte counts 1 on both. */
  lemma {:induction false} SumByPlaces(e: Endian, s: seq<byte>)
    ensures WordSum16(e, s) == Places(s, if e.Little? then 1 else 256, if e.Little? then 256 else 1)
    decreases |s|
  {
    if |s| >= 2 {
      SumByPlaces(e, s[2..]);
      assert s[..2] == [s[0]] + [s[1]];
      OneByteValue(e, s[0]);
      OneByteValue(e, s[1]);
      PowValues();
      match e
      case Little => LittleAppend([s[0]], [s[1]]);
      case Big => BigAppend([s[0]], [s[1]]);
    }
  }

  /** `first` times the bytes at even places and `second` times those at odd ones; a last one without partner is
      taken as it is. */
  function Places(s: seq<byte>, first: nat, second: nat): nat {
    if s == [] then 0
    else if |s| == 1 then s[0] as nat
    else first * s[0] as nat + second * s[1] as nat + Places(s[2..], first, second)
  }

  function AllOnes(words: nat): seq<byte> {
    seq(2 * words, i => 0xFF)
  }

  lemma {:induction false} AllOnesSum(e: Endian, words: nat)
    ensures WordSum16(e, AllOnes(words)) == words * 0xFFFF
  {
    if words > 0 {
      var s := AllOnes(words);
      var w := s[..2];
      assert s[2..] == AllOnes(words - 1) && w[1..] == [0xFF] && w[..1] == [0xFF];
      assert [0xFF as byte][1..] == [] && [0xFF as byte][..0] == [];
      assert WordValue(e, [0xFF]) == 0xFF;
      AllOnesSum(e, words - 1);
    }
  }

  /** 65537 words is the limit: one word more, and the result can lose the true residue. */
  lemma LimitIsTight(e: Endian, words: nat, r: nat)
    requires words == 65538
    requires SameResidue(r, WordSum16(e, AllOnes(words)) % TWO32)
    ensures r % 0xFFFF != WordSum16(e, AllOnes(words)) % 0xFFFF
  {
    AllOnesSum(e, words);
    ExactResidue(e, AllOnes(words), r);
  }
}
