/** The table-driven CRC (src/util/crc.c), against schoolbook division of bit strings.
    The code only shifts, masks and xors its words, so a word is its string of bits, most significant first. */
module Crc {
  import opened Buffers

  type Bits = seq<bool>

  /** `unsigned int`, 32 bits. */
  type Word = w: Bits | |w| == 32 witness seq(32, i => false)

  /** `unsigned char`, 8 bits. */
  type Byte = b: Bits | |b| == 8 witness seq(8, i => false)

  function Zeros(n: nat): (z: Bits)
    ensures |z| == n
  {
    seq(n, i => false)
  }

  /** The low `width` bits of a number. */
  function FromNat(value: nat, width: nat): (r: Bits)
    ensures |r| == width
  {
    if width == 0 then [] else FromNat(value / 2, width - 1) + [value % 2 == 1]
  }

  function ToNat(b: Bits): nat {
    if b == [] then 0 else 2 * ToNat(b[..|b| - 1]) + (if b[|b| - 1] then 1 else 0)
  }

  function Pow2(n: nat): (p: nat)
    ensures 0 < p
  {
    if n == 0 then 1 else 2 * Pow2(n - 1)
  }

  lemma {:induction false} FromToNat(b: Bits)
    ensures FromNat(ToNat(b), |b|) == b
    ensures ToNat(b) < Pow2(|b|)
  {
    if b != [] {
      FromToNat(b[..|b| - 1]);
    }
  }

  /** The generator polynomial has the term x^k (besides its leading x^32). */
  predicate Term(k: int) {
    k == 26 || k == 23 || k == 22 || k == 16 || k == 12 || k == 11 || k == 10
    || k == 8 || k == 7 || k == 5 || k == 4 || k == 2 || k == 1 || k == 0
  }

  function Polynomial(): Word {
    seq(32, i => Term(31 - i))
  }

  /** 0x04c11db7 */
  const CRC_POLYNOMIAL: Word := Polynomial()

  /** 0xffffffff */
  const CRC_INITIAL_REGISTER: Word := seq(32, i => true)

  function Bit(b: bool): nat {
    if b then 1 else 0
  }

  /** The hexadecimal digit that starts at bit `n`. */
  function HexDigit(b: Bits, n: nat): nat
    requires n + 4 <= |b|
  {
    8 * Bit(b[n]) + 4 * Bit(b[n + 1]) + 2 * Bit(b[n + 2]) + Bit(b[n + 3])
  }

  /** Four more bits of a string are one more hexadecimal digit of its value. */
  lemma OneMoreDigit(b: Bits, n: nat, value: nat)
    requires n + 4 <= |b| && ToNat(b[..n]) == value
    ensures ToNat(b[..n + 4]) == 16 * value + HexDigit(b, n)
  {
    forall k | n < k <= n + 4 ensures ToNat(b[..k]) == 2 * ToNat(b[..k - 1]) + Bit(b[k - 1]) {
      assert b[..k][..k - 1] == b[..k - 1];
    }
    assert ToNat(b[..n + 1]) == 2 * ToNat(b[..n]) + Bit(b[n]);
    assert ToNat(b[..n + 2]) == 2 * ToNat(b[..n + 1]) + Bit(b[n + 1]);
    assert ToNat(b[..n + 3]) == 2 * ToNat(b[..n + 2]) + Bit(b[n + 2]);
  }

  /** The value of the first `n` hexadecimal digits. */
  function Digits(b: Bits, n: nat): nat
    requires 4 * n <= |b|
  {
    if n == 0 then 0 else 16 * Digits(b, n - 1) + HexDigit(b, 4 * (n - 1))
  }

  lemma {:induction false} ValueOfDigits(b: Bits, n: nat)
    requires 4 * n <= |b|
    ensures ToNat(b[..4 * n]) == Digits(b, n)
  {
    if n > 0 {
      ValueOfDigits(b, n - 1);
      OneMoreDigit(b, 4 * (n - 1), Digits(b, n - 1));
    }
  }

  /** A word whose eight hexadecimal digits are 04c11db7 has that value. */
  lemma ValueOfWord(p: Word)
    requires HexDigit(p, 0) == 0x0 && HexDigit(p, 4) == 0x4 && HexDigit(p, 8) == 0xc && HexDigit(p, 12) == 0x1
    requires HexDigit(p, 16) == 0x1 && HexDigit(p, 20) == 0xd && HexDigit(p, 24) == 0xb && HexDigit(p, 28) == 0x7
    ensures ToNat(p) == 0x04c11db7
  {
    assert Digits(p, 1) == 0x0 && Digits(p, 2) == 0x04 && Digits(p, 3) == 0x04c && Digits(p, 4) == 0x04c1;
    assert Digits(p, 5) == 0x04c11 && Digits(p, 6) == 0x04c11d && Digits(p, 7) == 0x04c11db;
    ValueOfDigits(p, 8);
    assert p[..32] == p;
  }

  lemma PolynomialValue()
    ensures ToNat(CRC_POLYNOMIAL) == 0x04c11db7
  {
    ValueOfWord(CRC_POLYNOMIAL);
  }

  lemma RegisterValue()
    ensures ToNat(CRC_INITIAL_REGISTER) == 0xffffffff
  {
    var c := CRC_INITIAL_REGISTER;
    assert forall n: nat {:trigger HexDigit(c, n)} :: n <= 28 ==> HexDigit(c, n) == 0xf;
    assert Digits(c, 1) == 0xf && Digits(c, 2) == 0xff && Digits(c, 3) == 0xfff && Digits(c, 4) == 0xffff;
    assert Digits(c, 5) == 0xfffff && Digits(c, 6) == 0xffffff && Digits(c, 7) == 0xfffffff;
    ValueOfDigits(c, 8);
    assert c[..32] == c;
  }

  /** Bits in front count by the length of what comes after them. */
  lemma {:induction false} ToNatAppend(a: Bits, b: Bits)
    ensures ToNat(a + b) == ToNat(a) * Pow2(|b|) + ToNat(b)
  {
    if b == [] {
      assert a + b == a;
    } else {
      var n := |b| - 1;
      ToNatAppend(a, b[..n]);
      OneMoreBit(a + b[..n], b[n]);
      OneMoreBit(b[..n], b[n]);
      assert (a + b[..n]) + [b[n]] == a + b && b[..n] + [b[n]] == b;
      Twice(ToNat(a), Pow2(n));
    }
  }

  lemma OneMoreBit(a: Bits, x: bool)
    ensures ToNat(a + [x]) == 2 * ToNat(a) + Bit(x)
  {
    assert (a + [x])[..|a|] == a;
  }

  lemma Twice(a: nat, b: nat)
    ensures 2 * (a * b) == a * (2 * b)
  {
  }

  lemma {:induction false} ZeroValue(n: nat)
    ensures ToNat(Zeros(n)) == 0
  {
    if n > 0 {
      ZeroValue(n - 1);
      assert Zeros(n)[..n - 1] == Zeros(n - 1);
    }
  }

  /** Shifting left multiplies, and drops what does not fit into the word. */
  lemma ShiftLeftValue(c: Word, n: nat)
    requires n <= 32
    ensures ToNat(ShiftLeft(c, n)) == ToNat(c[n..]) * Pow2(n)
    ensures ToNat(c) == ToNat(c[..n]) * Pow2(32 - n) + ToNat(c[n..])
  {
    ToNatAppend(c[n..], Zeros(n));
    ZeroValue(n);
    assert c == c[..n] + c[n..];
    ToNatAppend(c[..n], c[n..]);
  }

  function Xor(a: Bits, b: Bits): (r: Bits)
    requires |a| == |b|
    ensures |r| == |a|
  {
    seq(|a|, i requires 0 <= i < |a| => a[i] != b[i])
  }

  /** `c << n` */
  function ShiftLeft(c: Word, n: nat): (r: Word)
    requires n <= 32
  {
    c[n..] + Zeros(n)
  }

  // ------------------------------------------------------------------------
  // Reference: long division of polynomials over GF(2)
  // ------------------------------------------------------------------------

  /** `a` added into the leading bits of `s`. */
  function XorPrefix(s: Bits, a: Bits): (r: Bits)
    requires |a| <= |s|
    ensures |r| == |s|
  {
    Xor(s[..|a|], a) + s[|a|..]
  }

  /** The dividend less its leading bit, and less the generator when that bit is one. */
  function Reduced(s: Bits): (r: Bits)
    requires 32 < |s|
    ensures |r| == |s| - 1
  {
    if s[0] then XorPrefix(s[1..], CRC_POLYNOMIAL) else s[1..]
  }

  /** Remainder of the dividend `s` by the generator, a leading one followed by the polynomial's 32 bits:
      strike out the leading bit, subtracting the generator when it is one, until 32 bits are left. */
  function Remainder(s: Bits): (r: Word)
    requires 32 <= |s|
    decreases |s|
  {
    if |s| == 32 then s else Remainder(Reduced(s))
  }

  /** The product of the polynomial `q` and the generator: the generator times the leading term of `q`, which is
      that bit and the polynomial behind it, plus the product of the rest. */
  ghost function Multiple(q: Bits): (r: Bits)
    ensures |r| == |q| + 32
  {
    if q == [] then Zeros(32)
    else if q[0] then [true] + XorPrefix(Multiple(q[1..]), CRC_POLYNOMIAL)
    else [false] + Multiple(q[1..])
  }

  /** The dividend is a multiple of the generator plus `r`. */
  ghost predicate Divides(s: Bits, q: Bits, r: Word) {
    |s| == |q| + 32 && s == Xor(Multiple(q), Zeros(|q|) + r)
  }

  lemma XorMoves(s: Bits, m: Bits, z: Bits, a: Word)
    requires |s| == |m| == |z| && 32 <= |s|
    ensures XorPrefix(s, a) == Xor(m, z) <==> s == Xor(XorPrefix(m, a), z)
  {
    var x, y := XorPrefix(s, a), XorPrefix(m, a);
    assert forall i :: 0 <= i < |s| ==> x[i] == (if i < 32 then s[i] != a[i] else s[i]);
    assert forall i :: 0 <= i < |s| ==> y[i] == (if i < 32 then m[i] != a[i] else m[i]);
    assert forall i :: 0 <= i < |s| ==> Xor(m, z)[i] == (m[i] != z[i]) && Xor(y, z)[i] == (y[i] != z[i]);
    if x == Xor(m, z) {
      assert forall i :: 0 <= i < |s| ==> x[i] == (m[i] != z[i]);
      assert s == Xor(y, z);
    }
    if s == Xor(y, z) {
      assert forall i :: 0 <= i < |s| ==> s[i] == (y[i] != z[i]);
      assert x == Xor(m, z);
    }
  }

  lemma XorTail(s: Bits, a: Bits, z: Bits, b: bool)
    requires |s| == |a| + 1 && |z| == |a|
    ensures s == Xor([b] + a, [false] + z) <==> s[0] == b && s[1..] == Xor(a, z)
  {
    assert Xor([b] + a, [false] + z) == [b] + Xor(a, z);
    assert s == [s[0]] + s[1..];
  }

  /** One step of the division is one leading bit of the quotient. */
  lemma DivideStep(s: Bits, q: Bits, r: Word)
    requires q != [] && |s| == |q| + 32
    ensures Divides(s, q, r) <==> s[0] == q[0] && Divides(Reduced(s), q[1..], r)
  {
    var m, z := Multiple(q[1..]), Zeros(|q| - 1) + r;
    assert Zeros(|q|) + r == [false] + z;
    XorTail(s, if q[0] then XorPrefix(m, CRC_POLYNOMIAL) else m, z, q[0]);
    XorMoves(s[1..], m, z, CRC_POLYNOMIAL);
  }

  /** Long division finds the remainder: the one and only word that differs from the dividend by a multiple. */
  lemma {:induction false} DivisionExactly(s: Bits, q: Bits, r: Word)
    requires |s| == |q| + 32
    ensures Divides(s, q, r) <==> q == Quotient(s) && r == Remainder(s)
    decreases |s|
  {
    if q == [] {
      assert Xor(Zeros(32), [] + r) == r;
    } else {
      DivideStep(s, q, r);
      DivisionExactly(Reduced(s), q[1..], r);
      assert q == [q[0]] + q[1..];
    }
  }

  /** The bits struck out, one for each step of the division. */
  ghost function Quotient(s: Bits): (q: Bits)
    requires 32 <= |s|
    ensures |q| == |s| - 32
    decreases |s|
  {
    if |s| == 32 then []
    else [s[0]] + Quotient(Reduced(s))
  }

  /** The reference CRC from register `c`: remainder of message times x^32, `c` added at the front. */
  function Divide(c: Word, msg: Bits): (r: Word) {
    Remainder(XorPrefix(msg + Zeros(32), c))
  }

  /** The bits of a message, in the order in which the division takes them. */
  function MessageBits(msg: seq<Byte>): (r: Bits)
    ensures |r| == 8 * |msg|
  {
    if msg == [] then [] else msg[0] + MessageBits(msg[1..])
  }

  // ------------------------------------------------------------------------
  // One bit at a time
  // ------------------------------------------------------------------------

  /** One round of the table loop: shift out the top bit, xor the polynomial in when it was one. */
  function Round(c: Word): (r: Word) {
    if c[0] then Xor(ShiftLeft(c, 1), CRC_POLYNOMIAL) else ShiftLeft(c, 1)
  }

  function Rounds(c: Word, n: nat): (r: Word)
    decreases n
  {
    if n == 0 then c else Rounds(Round(c), n - 1)
  }

  /** The register after the message bits: each meets the register's top bit before a round. */
  function Feed(c: Word, msg: Bits): (r: Word)
    decreases |msg|
  {
    if msg == [] then c else Feed(Round(XorPrefix(c, msg[..1])), msg[1..])
  }

  /** Behind its leading bit the dividend holds the rest of the message, with the shifted register on it. */
  lemma BehindLeadingBit(c: Word, msg: Bits)
    requires msg != []
    ensures var d: Word := XorPrefix(c, msg[..1]);
      XorPrefix(msg + Zeros(32), c)[1..] == XorPrefix(msg[1..] + Zeros(32), ShiftLeft(d, 1))
  {
    var d: Word := XorPrefix(c, msg[..1]);
    var all, rest, shifted := msg + Zeros(32), msg[1..] + Zeros(32), ShiftLeft(d, 1);
    var x, y := XorPrefix(all, c)[1..], XorPrefix(rest, shifted);
    forall i | 0 <= i < |rest| ensures x[i] == y[i] {
      assert rest[i] == all[i + 1];
      assert x[i] == if i < 31 then all[i + 1] != c[i + 1] else all[i + 1];
      assert i < 31 ==> shifted[i] == c[i + 1];
      assert shifted[31] == false;
    }
    assert x == y;
  }

  /** Striking out the leading bit of the dividend is one step of the register. */
  lemma StrikeOut(c: Word, msg: Bits)
    requires msg != []
    ensures XorPrefix(msg[1..] + Zeros(32), Round(XorPrefix(c, msg[..1]))) == Reduced(XorPrefix(msg + Zeros(32), c))
  {
    var d: Word := XorPrefix(c, msg[..1]);
    BehindLeadingBit(c, msg);
    assert XorPrefix(msg + Zeros(32), c)[0] == d[0];
    XorTwice(msg[1..] + Zeros(32), ShiftLeft(d, 1), CRC_POLYNOMIAL);
  }

  lemma XorTwice(s: Bits, a: Word, b: Word)
    requires 32 <= |s|
    ensures XorPrefix(XorPrefix(s, a), b) == XorPrefix(s, Xor(a, b))
  {
  }

  /** Feeding bits into the register is long division. */
  lemma {:induction false} FeedIsDivision(c: Word, msg: Bits)
    ensures Feed(c, msg) == Divide(c, msg)
    decreases |msg|
  {
    var s := XorPrefix(msg + Zeros(32), c);
    if msg == [] {
      assert s == c;
    } else {
      StrikeOut(c, msg);
      FeedIsDivision(Round(XorPrefix(c, msg[..1])), msg[1..]);
    }
  }

  lemma {:induction false} FeedAppend(c: Word, a: Bits, b: Bits)
    ensures Feed(c, a + b) == Feed(Feed(c, a), b)
    decreases |a|
  {
    if a == [] {
      assert a + b == b;
    } else {
      assert (a + b)[1..] == a[1..] + b && (a + b)[..1] == a[..1];
      FeedAppend(Round(XorPrefix(c, a[..1])), a[1..], b);
    }
  }

  lemma RoundXor(a: Word, b: Word)
    ensures Round(Xor(a, b)) == Xor(Round(a), Round(b))
  {
  }

  lemma {:induction false} RoundsXor(a: Word, b: Word, n: nat)
    ensures Rounds(Xor(a, b), n) == Xor(Rounds(a, n), Rounds(b, n))
    decreases n
  {
    if n > 0 {
      RoundXor(a, b);
      RoundsXor(Round(a), Round(b), n - 1);
    }
  }

  lemma XorPrefixPad(c: Word, m: Bits)
    requires |m| <= 32
    ensures XorPrefix(c, m) == Xor(c, m + Zeros(32 - |m|))
  {
  }

  /** The first message bit meets the register before the round, the others move up by it. */
  lemma RoundPrefix(c: Word, msg: Bits)
    requires 0 < |msg| <= 32
    ensures XorPrefix(Round(XorPrefix(c, msg[..1])), msg[1..]) == Round(XorPrefix(c, msg))
  {
    var c' := XorPrefix(c, msg[..1]);
    var low: Word := [false] + (msg[1..] + Zeros(32 - |msg|));
    assert XorPrefix(c, msg) == Xor(c', low);
    RoundXor(c', low);
    assert ShiftLeft(low, 1) == msg[1..] + Zeros(33 - |msg|);
    XorPrefixPad(Round(c'), msg[1..]);
  }

  /** Up to 32 message bits enter as one xor into the leading bits of the register. */
  lemma {:induction false} FeedIsRounds(c: Word, msg: Bits)
    requires |msg| <= 32
    ensures Feed(c, msg) == Rounds(XorPrefix(c, msg), |msg|)
    decreases |msg|
  {
    if msg == [] {
      assert XorPrefix(c, msg) == c;
    } else {
      var c' := XorPrefix(c, msg[..1]);
      FeedIsRounds(Round(c'), msg[1..]);
      RoundPrefix(c, msg);
    }
  }

  /** Rounds only shift while the leading bits are zero. */
  lemma {:induction false} ZeroRounds(c: Word, n: nat)
    requires n <= 32 && c[..n] == Zeros(n)
    ensures Rounds(c, n) == ShiftLeft(c, n)
    decreases n
  {
    if n == 0 {
      assert ShiftLeft(c, 0) == c;
    } else {
      assert !c[0] by { assert c[..n][0] == c[0]; }
      assert Round(c) == ShiftLeft(c, 1);
      assert ShiftLeft(c, 1)[..n - 1] == c[..n][1..] == Zeros(n - 1);
      ZeroRounds(Round(c), n - 1);
      assert ShiftLeft(ShiftLeft(c, 1), n - 1) == ShiftLeft(c, n);
    }
  }

  // ------------------------------------------------------------------------
  // One byte at a time, by table
  // ------------------------------------------------------------------------

  /** The table entry for index `i`: the index moved to the top of a word, and a round for each of its bits. */
  function TableEntry(i: Byte): (r: Word) {
    Rounds(i + Zeros(24), |i|)
  }

  /** One step of the byte loop: `(crc << 8) ^ table[((crc >> 24) ^ t) & 0xff]`. */
  function Step(c: Word, t: Byte): (r: Word) {
    Xor(ShiftLeft(c, 8), TableEntry(Xor(c[..8], t)))
  }

  function Crc(c: Word, msg: seq<Byte>): (r: Word)
    decreases |msg|
  {
    if msg == [] then c else Crc(Step(c, msg[0]), msg[1..])
  }

  /** One table step does eight bit steps. */
  lemma StepIsFeed(c: Word, t: Byte)
    ensures Step(c, t) == Feed(c, t)
  {
    var low := Zeros(8) + c[8..];
    var high := Xor(c[..8], t) + Zeros(24);
    FeedIsRounds(c, t);
    assert XorPrefix(c, t) == Xor(low, high);
    RoundsXor(low, high, |t|);
    assert low[..|t|] == Zeros(|t|);
    ZeroRounds(low, |t|);
    assert ShiftLeft(low, |t|) == ShiftLeft(c, |t|);
  }

  lemma {:induction false} CrcIsFeed(c: Word, msg: seq<Byte>)
    ensures Crc(c, msg) == Feed(c, MessageBits(msg))
    decreases |msg|
  {
    if msg != [] {
      StepIsFeed(c, msg[0]);
      FeedAppend(c, msg[0], MessageBits(msg[1..]));
      CrcIsFeed(Step(c, msg[0]), msg[1..]);
    }
  }

  /** The table-driven CRC is polynomial division, for every message and starting register. */
  lemma CrcIsDivision(c: Word, msg: seq<Byte>)
    ensures Crc(c, msg) == Divide(c, MessageBits(msg))
  {
    CrcIsFeed(c, msg);
    FeedIsDivision(c, MessageBits(msg));
  }

  /** The first of the bytes from `off` on, and the others. */
  lemma CrcStep(c: Word, msg: seq<Byte>, off: nat, end: nat)
    requires off < end <= |msg|
    ensures Crc(c, msg[off..end]) == Crc(Step(c, msg[off]), msg[off + 1..end])
  {
    assert msg[off..end][0] == msg[off] && msg[off..end][1..] == msg[off + 1..end];
  }

  /** The CRC of a message cut in two is the CRC of its second part from the CRC of its first. */
  lemma {:induction false} CrcAppend(c: Word, a: seq<Byte>, b: seq<Byte>)
    ensures Crc(c, a + b) == Crc(Crc(c, a), b)
    decreases |a|
  {
    if a == [] {
      assert a + b == b;
    } else {
      assert (a + b)[1..] == a[1..] + b;
      CrcAppend(Step(c, a[0]), a[1..], b);
    }
  }

  lemma CrcSplit(c: Word, msg: seq<Byte>, off: nat, end: nat)
    requires off <= end <= |msg|
    ensures Crc(c, msg[..end]) == Crc(Crc(c, msg[..off]), msg[off..end])
  {
    assert msg[..off] + msg[off..end] == msg[..end];
    CrcAppend(c, msg[..off], msg[off..end]);
  }

  // ------------------------------------------------------------------------
  // Error detection
  // ------------------------------------------------------------------------

  /** A round loses nothing: the polynomial is odd, so the last bit tells whether it was xored in. */
  lemma RoundInjective(a: Word, b: Word)
    requires Round(a) == Round(b)
    ensures a == b
  {
    assert CRC_POLYNOMIAL[31];
    assert Round(a)[31] == a[0] && Round(b)[31] == b[0];
    forall i | 1 <= i < 32 ensures a[i] == b[i] {
      assert Round(a)[i - 1] == Round(b)[i - 1];
    }
    assert a == b;
  }

  lemma {:induction false} RoundsInjective(a: Word, b: Word, n: nat)
    requires a != b
    ensures Rounds(a, n) != Rounds(b, n)
    decreases n
  {
    if n > 0 {
      if Round(a) == Round(b) { RoundInjective(a, b); }
      RoundsInjective(Round(a), Round(b), n - 1);
    }
  }

  lemma {:induction false} FeedInjective(a: Word, b: Word, msg: Bits)
    requires a != b
    ensures Feed(a, msg) != Feed(b, msg)
    decreases |msg|
  {
    if msg != [] {
      var a', b' := XorPrefix(a, msg[..1]), XorPrefix(b, msg[..1]);
      assert a == XorPrefix(a', msg[..1]) && b == XorPrefix(b', msg[..1]);
      if Round(a') == Round(b') { RoundInjective(a', b'); }
      FeedInjective(Round(a'), Round(b'), msg[1..]);
    }
  }

  /** The bit strings have equal lengths and differ, but only within 32 consecutive bits. */
  ghost predicate DifferInBurst(a: Bits, b: Bits, from: nat) {
    && |a| == |b| && a != b
    && forall i :: 0 <= i < |a| && !(from <= i < from + 32) ==> a[i] == b[i]
  }

  /** Different windows of at most 32 bits, between the same bits, end in different registers. */
  lemma WindowChangesRegister(c: Word, pre: Bits, x: Bits, y: Bits, post: Bits)
    requires |x| == |y| <= 32 && x != y
    ensures Feed(c, pre + (x + post)) != Feed(c, pre + (y + post))
  {
    var c' := Feed(c, pre);
    FeedAppend(c, pre, x + post);
    FeedAppend(c, pre, y + post);
    FeedAppend(c', x, post);
    FeedAppend(c', y, post);
    FeedIsRounds(c', x);
    FeedIsRounds(c', y);
    XorPrefixInjective(c', x, y);
    RoundsInjective(XorPrefix(c', x), XorPrefix(c', y), |x|);
    FeedInjective(Feed(c', x), Feed(c', y), post);
  }

  /** Every error burst of at most 32 bits changes the register. */
  lemma BurstChangesRegister(c: Word, a: Bits, b: Bits, from: nat)
    requires DifferInBurst(a, b, from)
    ensures Feed(c, a) != Feed(c, b)
  {
    assert from < |a|;
    var to := if from + 32 <= |a| then from + 32 else |a|;
    assert a[..from] == b[..from] && a[to..] == b[to..];
    assert a == a[..from] + (a[from..to] + a[to..]);
    assert b == b[..from] + (b[from..to] + b[to..]);
    WindowChangesRegister(c, a[..from], a[from..to], b[from..to], a[to..]);
  }

  lemma XorPrefixInjective(c: Word, x: Bits, y: Bits)
    requires |x| == |y| <= 32 && x != y
    ensures XorPrefix(c, x) != XorPrefix(c, y)
  {
    var i :| 0 <= i < |x| && x[i] != y[i];
    assert XorPrefix(c, x)[i] != XorPrefix(c, y)[i];
  }

  lemma SomeBitDiffers(a: seq<Byte>, b: seq<Byte>)
    requires |a| == |b| && a != b
    ensures MessageBits(a) != MessageBits(b)
  {
    var j :| 0 <= j < |a| && a[j] != b[j];
    BitsOfByte(a, j);
    BitsOfByte(b, j);
  }

  /** Messages that differ only within 32 consecutive bits have different CRCs. */
  lemma BurstDetected(c: Word, a: seq<Byte>, b: seq<Byte>, from: nat)
    requires |a| == |b| && a != b
    requires var ma, mb := MessageBits(a), MessageBits(b);
      forall i :: 0 <= i < |ma| && !(from <= i < from + 32) ==> ma[i] == mb[i]
    ensures Crc(c, a) != Crc(c, b)
  {
    SomeBitDiffers(a, b);
    CrcIsFeed(c, a);
    CrcIsFeed(c, b);
    BurstChangesRegister(c, MessageBits(a), MessageBits(b), from);
  }

  /** The same for four consecutive bytes. */
  lemma FourBytesDetected(c: Word, a: seq<Byte>, b: seq<Byte>, k: nat)
    requires |a| == |b| && a != b
    requires forall i :: 0 <= i < |a| && !(k <= i < k + 4) ==> a[i] == b[i]
    ensures Crc(c, a) != Crc(c, b)
  {
    var ma, mb := MessageBits(a), MessageBits(b);
    forall i | 0 <= i < |ma| && !(8 * k <= i < 8 * k + 32) ensures ma[i] == mb[i] {
      BitsOfByte(a, i / 8);
      BitsOfByte(b, i / 8);
      assert ma[i] == ma[8 * (i / 8)..8 * (i / 8) + 8][i % 8];
      assert mb[i] == mb[8 * (i / 8)..8 * (i / 8) + 8][i % 8];
    }
    BurstDetected(c, a, b, 8 * k);
  }

  lemma {:induction false} BitsOfByte(msg: seq<Byte>, j: nat)
    requires j < |msg|
    ensures MessageBits(msg)[8 * j..8 * j + 8] == msg[j]
  {
    if j > 0 { BitsOfByte(msg[1..], j - 1); }
  }

  /** The four bytes of a word, most significant first. */
  function BigEndian(c: Word): (r: seq<Byte>) {
    [c[..8], c[8..16], c[16..24], c[24..]]
  }

  /** A message followed by its own CRC drives the register to zero. */
  lemma SelfCheck(c: Word, msg: seq<Byte>)
    ensures Crc(c, msg + BigEndian(Crc(c, msg))) == Zeros(32)
  {
    var r := Crc(c, msg);
    CrcAppend(c, msg, BigEndian(r));
    CrcIsFeed(r, BigEndian(r));
    BigEndianBits(r);
    FeedIsRounds(r, r);
    assert XorPrefix(r, r) == Zeros(32);
    ZeroRounds(Zeros(32), 32);
  }

  lemma BigEndianBits(c: Word)
    ensures MessageBits(BigEndian(c)) == c
  {
    var s := BigEndian(c);
    assert MessageBits([s[3]]) == s[3] + MessageBits([]);
    assert MessageBits([s[2], s[3]]) == s[2] + MessageBits([s[2], s[3]][1..]);
    assert MessageBits([s[1], s[2], s[3]]) == s[1] + MessageBits([s[1], s[2], s[3]][1..]);
    assert [s[1], s[2], s[3]][1..] == [s[2], s[3]] && s[1..] == [s[1], s[2], s[3]];
    assert c == c[..8] + (c[8..16] + (c[16..24] + c[24..]));
  }

  // ------------------------------------------------------------------------
  // The code
  // ------------------------------------------------------------------------

  /** The inner loop of `ww_initialize_crc_table`. */
  method BuildEntry(i: Byte) returns (accum: Word)
    ensures accum == TableEntry(i)
  {
    accum := i + Zeros(24);
    ghost var start := accum;
    for j := 0 to 8
      invariant Rounds(accum, |i| - j) == Rounds(start, |i|)
    {
      if accum[0] {
        accum := Xor(ShiftLeft(accum, 1), CRC_POLYNOMIAL);
      } else {
        accum := ShiftLeft(accum, 1);
      }
    }
  }

  /** The first `n` entries are right. */
  ghost predicate Entries(s: seq<Word>, n: nat) {
    n <= |s| && forall i: nat :: i < n ==> s[i] == TableEntry(FromNat(i, 8))
  }

  lemma OneMoreEntry(s: seq<Word>, n: nat, entry: Word)
    requires n < |s| && Entries(s, n) && entry == TableEntry(FromNat(n, 8))
    ensures Entries(s[n := entry], n + 1)
  {
  }

  /** The static table and its "already built" flag. */
  class Table {
    var initialized: bool
    const entries: array<Word>

    ghost predicate Valid()
      reads this, entries
    {
      && entries.Length == 256
      && (initialized ==> Built(256))
    }

    /** The first `n` entries are right. */
    ghost predicate Built(n: nat)
      reads entries
    {
      Entries(entries[..], n)
    }

    constructor ()
      ensures Valid() && fresh(entries) && !initialized
    {
      initialized := false;
      entries := new Word[256](_ => Zeros(32));
    }

    /** `ww_initialize_crc_table` */
    method Initialize()
      requires Valid()
      modifies this, entries
      ensures Valid() && initialized
    {
      for i := 0 to entries.Length
        invariant Built(i)
        modifies entries
      {
        var entry := BuildEntry(FromNat(i, 8));
        OneMoreEntry(entries[..], i, entry);
        ghost var before := entries[..];
        entries[i] := entry;
        assert entries[..] == before[i := entry];
      }
      initialized := true;
    }

    /** The byte step, with the entry read from the table. */
    method StepByTable(crc: Word, t: Byte) returns (r: Word)
      requires Valid() && initialized
      ensures r == Step(crc, t)
    {
      var i: Byte := Xor(crc[..8], t);
      FromToNat(i);
      assert Pow2(8) == 256;
      r := Xor(ShiftLeft(crc, 8), entries[ToNat(i)]);
    }

    /** The loops over single bytes, from offset `off` on. */
    method CrcBytes(source: seq<Byte>, off: nat, partial: Word) returns (r: Word)
      requires Valid() && initialized && off <= |source|
      ensures r == Crc(partial, source[off..])
    {
      r := partial;
      assert source[off..|source|] == source[off..];
      var k := off;
      while k < |source|
        modifies {}
        invariant off <= k <= |source|
        invariant Crc(r, source[k..|source|]) == Crc(partial, source[off..|source|])
      {
        CrcStep(r, source, k, |source|);
        r := StepByTable(r, source[k]);
        k := k + 1;
      }
    }

    /** One aligned word, loaded whole and then taken byte by byte in memory order. */
    method StepWord(tmp: seq<Byte>, crc: Word) returns (r: Word)
      requires Valid() && initialized && |tmp| == 4
      ensures r == Crc(crc, tmp)
    {
      r := crc;
      assert tmp[0..|tmp|] == tmp;
      for j := 0 to 4
        modifies {}
        invariant Crc(r, tmp[j..|tmp|]) == Crc(crc, tmp)
      {
        CrcStep(r, tmp, j, |tmp|);
        r := StepByTable(r, tmp[j]);
      }
    }

    /** A load through a word pointer, which has to be aligned. */
    method LoadWord(address: nat, source: seq<Byte>, off: nat) returns (tmp: seq<Byte>)
      requires off + 4 <= |source| && (address + off) % 4 == 0
      ensures tmp == source[off..off + 4]
    {
      tmp := source[off..off + 4];
    }

    /** The next word of an aligned source, and the checksum up to its end. */
    method NextWord(address: nat, source: seq<Byte>, off: nat, crc: Word, ghost partial: Word)
      returns (tmp: seq<Byte>, r: Word)
      requires Valid() && initialized && off + 4 <= |source| && (address + off) % 4 == 0
      requires crc == Crc(partial, source[..off])
      ensures tmp == source[off..off + 4] && r == Crc(partial, source[..off + 4])
      ensures (address + (off + 4)) % 4 == 0
    {
      CrcSplit(partial, source, off, off + 4);
      tmp := LoadWord(address, source, off);
      r := StepWord(tmp, crc);
    }

    /** The loop over the whole words of an aligned source. */
    method CrcWords(address: nat, source: seq<Byte>, partial: Word) returns (r: Word, off: nat)
      requires Valid() && initialized && address % 4 == 0
      ensures off <= |source| && r == Crc(partial, source[..off])
    {
      r, off := partial, 0;
      while |source| - off >= 4
        invariant off <= |source| && (address + off) % 4 == 0 && r == Crc(partial, source[..off])
      {
        var tmp;
        tmp, r := NextWord(address, source, off, r, partial);
        off := off + 4;
      }
    }

    /** `ww_uicrc_partial` */
    method CrcPartial(address: nat, source: seq<Byte>, partial: Word) returns (r: Word)
      requires Valid()
      modifies this, entries
      ensures Valid() && initialized
      ensures r == Crc(partial, source)
    {
      if !initialized {
        Initialize();
      }
      var off := 0;
      r := partial;
      if address % 4 == 0 {
        r, off := CrcWords(address, source, r);
      }
      CrcSplit(partial, source, off, |source|);
      assert source[..|source|] == source && source[off..|source|] == source[off..];
      r := CrcBytes(source, off, r);
    }

    /** `ww_uicrc`: the checksum of a whole message, by table, is its remainder in the polynomial division. */
    method WholeCrc(address: nat, source: seq<Byte>) returns (r: Word)
      requires Valid()
      modifies this, entries
      ensures Valid() && initialized
      ensures r == Divide(CRC_INITIAL_REGISTER, MessageBits(source))
      ensures source == [] ==> ToNat(r) == 0xffffffff
    {
      RegisterValue();
      r := CrcPartial(address, source, CRC_INITIAL_REGISTER);
      CrcIsDivision(CRC_INITIAL_REGISTER, source);
    }

    /** A store through a word pointer, which has to be aligned. */
    method StoreWord(address: nat, tmp: seq<Byte>, ghost source: seq<Byte>, dest: array<Byte>, off: nat,
                     ghost before: seq<Byte>)
      requires off + 4 <= |source| && off + 4 <= dest.Length && tmp == source[off..off + 4]
      requires (address + off) % 4 == 0 && Copied(dest[..], before, source, off)
      modifies dest
      ensures Copied(dest[..], before, source, off + 4) && (address + (off + 4)) % 4 == 0
    {
      forall i | 0 <= i < 4 {
        dest[off + i] := tmp[i];
      }
    }

    /** The word loop of the copying routine. */
    method CopyCrcWords(sourceAddress: nat, destAddress: nat, source: seq<Byte>, dest: array<Byte>, copylen: nat,
                        partial: Word)
      returns (r: Word, off: nat)
      requires Valid() && initialized && dest as object != entries
      requires sourceAddress % 4 == 0 && destAddress % 4 == 0
      requires copylen <= |source| && copylen <= dest.Length
      modifies dest
      ensures Valid() && off <= copylen && r == Crc(partial, source[..off])
      ensures Copied(dest[..], old(dest[..]), source, off)
    {
      r, off := partial, 0;
      while copylen - off >= 4
        invariant Valid() && off <= copylen && r == Crc(partial, source[..off])
        invariant (sourceAddress + off) % 4 == 0 && (destAddress + off) % 4 == 0
        invariant Copied(dest[..], old(dest[..]), source, off)
      {
        var tmp;
        tmp, r := NextWord(sourceAddress, source, off, r, partial);
        StoreWord(destAddress, tmp, source, dest, off, old(dest[..]));
        off := off + 4;
      }
    }

    /** The byte loop of the copying routine. */
    method CopyCrcBytes(source: seq<Byte>, dest: array<Byte>, copylen: nat, from: nat, partial: Word,
                        ghost before: seq<Byte>)
      returns (r: Word)
      requires Valid() && initialized && dest as object != entries
      requires from <= copylen <= |source| && copylen <= dest.Length
      requires Copied(dest[..], before, source, from)
      modifies dest
      ensures Valid() && r == Crc(partial, source[from..copylen])
      ensures Copied(dest[..], before, source, copylen)
    {
      r := partial;
      var off := from;
      while off < copylen
        invariant Valid() && from <= off <= copylen
        invariant Crc(r, source[off..copylen]) == Crc(partial, source[from..copylen])
        invariant Copied(dest[..], before, source, off)
      {
        CrcStep(r, source, off, copylen);
        CopyBytes(source, dest, off, 1, before);
        r := StepByTable(r, source[off]);
        off := off + 1;
      }
    }

    /** The copied part, with whole words first when both buffers are aligned. */
    method CopyCrc(sourceAddress: nat, destAddress: nat, source: seq<Byte>, dest: array<Byte>, copylen: nat,
                   partial: Word)
      returns (r: Word)
      requires Valid() && initialized && dest as object != entries
      requires copylen <= |source| && copylen <= dest.Length
      modifies dest
      ensures Valid() && r == Crc(partial, source[..copylen])
      ensures Copied(dest[..], old(dest[..]), source, copylen)
    {
      ghost var before := dest[..];
      var off := 0;
      r := partial;
      if sourceAddress % 4 == 0 && destAddress % 4 == 0 {
        r, off := CopyCrcWords(sourceAddress, destAddress, source, dest, copylen, r);
      }
      CrcSplit(partial, source, off, copylen);
      r := CopyCrcBytes(source, dest, copylen, off, r, before);
    }

    /** `ww_bcopy_uicrc_partial`: copies the first `copylen` bytes; the CRC covers max(copylen, crclen). */
    method BcopyCrcPartial(sourceAddress: nat, destAddress: nat, source: seq<Byte>, dest: array<Byte>,
                           copylen: nat, crclen: nat, partial: Word) returns (r: Word)
      requires Valid() && dest as object != entries
      requires |source| == (if copylen < crclen then crclen else copylen) && copylen <= dest.Length
      modifies this, entries, dest
      ensures Valid() && initialized
      ensures Copied(dest[..], old(dest[..]), source, copylen)
      ensures r == Crc(partial, source)
    {
      if !initialized {
        Initialize();
      }
      r := CopyCrc(sourceAddress, destAddress, source, dest, copylen, partial);
      CrcSplit(partial, source, copylen, |source|);
      assert source[..|source|] == source && source[copylen..|source|] == source[copylen..];
      r := CrcBytes(source, copylen, r);
    }
  }
}
