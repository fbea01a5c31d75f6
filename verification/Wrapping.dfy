/** Unsigned words that wrap around. */
module Wrapping {

  lemma DivModUnique(a: int, m: nat, q: int, r: int)
    requires 0 < m && a == q * m + r && 0 <= r < m
    ensures a / m == q && a % m == r
  {
    var q', r' := a / m, a % m;
    assert a == q' * m + r' && 0 <= r' < m;
    assert (q - q') * m == r' - r;
    assert q - q' >= 1 ==> (q - q') * m >= m;
    assert q - q' <= -1 ==> (q - q') * m + m <= 0;
  }

  /** The value of an unsigned word with `m` values after wrap-around: `m` is added or subtracted until the result
      fits. */
  function Wrap(m: nat, x: int): (r: nat)
    requires 0 < m
    ensures r < m
    decreases x < 0, if x < 0 then -x else x
  {
    if x < 0 then Wrap(m, x + m) else if x < m then x else Wrap(m, x - m)
  }

  lemma TimesOneMore(q: int, m: nat)
    ensures (q + 1) * m == q * m + m
  {
  }

  lemma {:induction false} WrapQuotient(m: nat, x: int) returns (q: int)
    requires 0 < m
    ensures x == q * m + Wrap(m, x)
    decreases x < 0, if x < 0 then -x else x
  {
    if x < 0 {
      var q' := WrapQuotient(m, x + m);
      q := q' - 1;
      TimesOneMore(q, m);
    } else if x < m {
      q := 0;
    } else {
      var q' := WrapQuotient(m, x - m);
      q := q' + 1;
      TimesOneMore(q', m);
    }
  }

  /** Wrapping is reduction modulo `m`. */
  lemma WrapIsMod(m: nat, x: int)
    requires 0 < m
    ensures Wrap(m, x) == x % m
  {
    var q := WrapQuotient(m, x);
    DivModUnique(x, m, q, Wrap(m, x));
  }

  /** Wrapping on the way does not change the result. */
  lemma {:induction false} WrapWrap(m: nat, a: int, b: int)
    requires 0 < m
    ensures Wrap(m, Wrap(m, a) + b) == Wrap(m, a + b)
    ensures Wrap(m, b + Wrap(m, a)) == Wrap(m, a + b)
    decreases a < 0, if a < 0 then -a else a
  {
    if a < 0 {
      WrapWrap(m, a + m, b);
    } else if a >= m {
      WrapWrap(m, a - m, b);
    }
    assert Wrap(m, a + b + m) == Wrap(m, a + b);
    assert Wrap(m, a + b - m) == Wrap(m, a + b);
  }

  /** Less than a whole turn does not lead back. */
  lemma WrapTurn(m: nat, a: int, b: int)
    requires 0 < m && a < b < a + m
    ensures Wrap(m, a) != Wrap(m, b)
  {
    WrapWrap(m, a, -a);
    WrapWrap(m, b, -a);
    assert Wrap(m, 0) == 0 && Wrap(m, b - a) == b - a;
  }
}
