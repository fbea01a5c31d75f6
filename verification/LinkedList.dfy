/** Intrusive circular doubly linked list with a sentinel (src/class/ww_list.h, src/class/ww_list.c). */
module LinkedList {
  import Wrapping

  /** `ww_list_item_t`: the links live in the item. */
  class Item {
    var next: Item?
    var prev: Item?

    constructor ()
      ensures next == null && prev == null
    {
      next, prev := null, null;
    }
  }

  const SIZE_MODULUS := 0x1_0000_0000_0000_0000

  /** `size_t`, 64 bits. */
  type size_t = n: nat | n < SIZE_MODULUS

  /** The value of a `size_t` after wrap-around, in either direction. */
  function Wrap(x: int): size_t {
    Wrapping.Wrap(SIZE_MODULUS, x)
  }

  /** A length that counts the items keeps doing so. */
  lemma Counts(length: size_t, n: int, change: int)
    ensures Wrap(length) == length
    ensures 0 <= length + change < SIZE_MODULUS ==> Wrap(length + change) == length + change
    ensures length == Wrap(n) ==> Wrap(length + change) == Wrap(n + change)
  {
    Wrapping.WrapWrap(SIZE_MODULUS, n, change);
  }

  /** `(long long) n` */
  function Signed(n: size_t): int {
    if n < SIZE_MODULUS / 2 then n else n - SIZE_MODULUS
  }

  /** The one number in the range of a `long long` that wraps to `n`. */
  lemma SignedExactly(n: size_t, x: int)
    requires -0x8000_0000_0000_0000 <= x < 0x8000_0000_0000_0000
    ensures x == Signed(n) <==> Wrap(x) == n
  {
    assert x < 0 ==> Wrap(x) == Wrap(x + SIZE_MODULUS);
  }

  lemma BackAgain(length: size_t, change: int)
    ensures Wrap(Wrap(length + change) - change) == length
  {
    Counts(length, 0, 0);
    Wrapping.WrapWrap(SIZE_MODULUS, length + change, -change);
  }

  lemma JoinedLength(a: size_t, b: size_t, m: int, n: int)
    ensures Wrap(a) == a && Wrap(0) == 0
    ensures a == Wrap(m) && b == Wrap(n) ==> Wrap(a + b) == Wrap(m + n)
  {
    Counts(a, m, b);
    Wrapping.WrapWrap(SIZE_MODULUS, n, m);
  }

  predicate Linked(a: Item, b: Item)
    reads a, b
  {
    a.next == b && b.prev == a
  }

  /** Each item of `w` is linked to the one after it. */
  ghost predicate Chain(w: seq<Item>)
    reads w
  {
    forall i :: 0 <= i < |w| - 1 ==> Linked(w[i], w[i + 1])
  }

  ghost predicate Distinct(s: seq<Item>) {
    forall i, j :: 0 <= i < j < |s| ==> s[i] != s[j]
  }

  ghost function ItemsOf(s: seq<Item>): set<Item> {
    set x | x in s
  }

  lemma ChainJoin(a: seq<Item>, b: seq<Item>)
    requires Chain(a) && Chain(b)
    requires a != [] && b != [] ==> Linked(a[|a| - 1], b[0])
    ensures Chain(a + b)
  {
  }

  /** The links of some items at one moment. */
  type Links = map<Item, (Item?, Item?)>

  ghost function LinksOf(s: set<Item>): Links
    reads s
  {
    map x | x in s :: (x.next, x.prev)
  }

  ghost predicate ChainIn(before: Links, w: seq<Item>) {
    && (forall i :: 0 <= i < |w| ==> w[i] in before)
    && (forall i :: 0 <= i < |w| - 1 ==> before[w[i]].0 == w[i + 1] && before[w[i + 1]].1 == w[i])
  }

  /** Since that moment only the links out of `tails` and into `heads` may have changed. */
  ghost predicate RelinkedOnly(before: Links, tails: set<Item>, heads: set<Item>)
    reads before.Keys
  {
    forall x :: x in before ==> (x.next == before[x].0 || x in tails) && (x.prev == before[x].1 || x in heads)
  }

  /** No inner link of `part` starts at a tail or ends at a head. */
  ghost predicate Untouched(part: seq<Item>, tails: set<Item>, heads: set<Item>) {
    && (forall i :: 0 <= i < |part| - 1 ==> part[i] !in tails)
    && (forall i :: 0 < i < |part| ==> part[i] !in heads)
  }

  /** A stretch of a chain none of whose inner links was touched is still a chain. */
  lemma ChainKept(before: Links, tails: set<Item>, heads: set<Item>, w: seq<Item>, part: seq<Item>, from: nat)
    requires ChainIn(before, w) && RelinkedOnly(before, tails, heads)
    requires from + |part| <= |w| && part == w[from..from + |part|]
    requires Untouched(part, tails, heads)
    ensures Chain(part)
  {
    forall i | 0 <= i < |part| - 1 ensures Linked(part[i], part[i + 1]) {
      assert part[i] == w[from + i] && part[i + 1] == w[from + i + 1];
    }
  }

  /** Three items of a list, by position. */
  function At3(d: seq<Item>, i: nat, j: nat, k: nat): set<Item>
    requires i < |d| && j < |d| && k < |d|
  {
    {d[i], d[j], d[k]}
  }

  predicate Outside(lo: int, hi: int, t: (nat, nat, nat)) {
    !(lo <= t.0 < hi) && !(lo <= t.1 < hi) && !(lo <= t.2 < hi)
  }

  /** The links inside the stretch from `lo` to `hi` of a duplicate-free list. */
  lemma SliceUntouched(d: seq<Item>, lo: nat, hi: nat, t: (nat, nat, nat), h: (nat, nat, nat))
    requires Distinct(d) && lo <= hi <= |d|
    requires t.0 < |d| && t.1 < |d| && t.2 < |d| && h.0 < |d| && h.1 < |d| && h.2 < |d|
    requires Outside(lo, hi - 1, t)
    requires Outside(lo + 1, hi, h)
    ensures Untouched(d[lo..hi], At3(d, t.0, t.1, t.2), At3(d, h.0, h.1, h.2))
  {
  }

  /** The same for a stretch that ends a ring and returns to the ring's first item, at `z`. */
  lemma EndUntouched(d: seq<Item>, lo: nat, hi: nat, z: nat, t: (nat, nat, nat), h: (nat, nat, nat))
    requires Distinct(d) && z < lo <= hi <= |d|
    requires t.0 < |d| && t.1 < |d| && t.2 < |d| && h.0 < |d| && h.1 < |d| && h.2 < |d|
    requires Outside(lo, hi, t)
    requires Outside(lo + 1, hi, h)
    requires lo < hi ==> z != h.0 && z != h.1 && z != h.2
    ensures Untouched(d[lo..hi] + [d[z]], At3(d, t.0, t.1, t.2), At3(d, h.0, h.1, h.2))
  {
  }

  function Last(s: seq<Item>): Item
    requires s != []
  {
    s[|s| - 1]
  }

  /** Cut `y` out between `x` and `z`, one link replacing two. */
  lemma ChainCut(before: Links, tails: set<Item>, heads: set<Item>, x: seq<Item>, y: seq<Item>, z: seq<Item>)
    requires x != [] && z != [] && ChainIn(before, x + y + z) && RelinkedOnly(before, tails, heads)
    requires Untouched(x, tails, heads) && Untouched(y, tails, heads) && Untouched(z, tails, heads)
    requires Linked(Last(x), z[0])
    ensures Chain(x + z) && Chain(y)
  {
    ChainKept(before, tails, heads, x + y + z, x, 0);
    ChainKept(before, tails, heads, x + y + z, y, |x|);
    ChainKept(before, tails, heads, x + y + z, z, |x| + |y|);
    ChainJoin(x, z);
  }

  /** Link `y` in between `x` and `z`. */
  lemma ChainInsert(before: Links, tails: set<Item>, heads: set<Item>, x: seq<Item>, y: seq<Item>, z: seq<Item>)
    requires x != [] && y != [] && z != [] && ChainIn(before, x + z) && RelinkedOnly(before, tails, heads)
    requires Untouched(x, tails, heads) && Chain(y) && Untouched(z, tails, heads)
    requires Linked(Last(x), y[0]) && Linked(Last(y), z[0])
    ensures Chain(x + y + z)
  {
    ChainKept(before, tails, heads, x + z, x, 0);
    ChainKept(before, tails, heads, x + z, z, |x|);
    ChainJoin(x, y);
    ChainJoin(x + y, z);
  }

  /** Exchange `x` and `y` between `p` and `q`. */
  lemma ChainExchange(before: Links, tails: set<Item>, heads: set<Item>,
                      p: seq<Item>, x: seq<Item>, y: seq<Item>, q: seq<Item>)
    requires p != [] && x != [] && y != [] && q != []
    requires ChainIn(before, p + x + y + q) && RelinkedOnly(before, tails, heads)
    requires Untouched(p, tails, heads) && Untouched(x, tails, heads)
    requires Untouched(y, tails, heads) && Untouched(q, tails, heads)
    requires Linked(Last(p), y[0]) && Linked(Last(y), x[0]) && Linked(Last(x), q[0])
    ensures Chain(p + y + x + q)
  {
    ChainKept(before, tails, heads, p + x + y + q, p, 0);
    ChainKept(before, tails, heads, p + x + y + q, x, |p|);
    ChainKept(before, tails, heads, p + x + y + q, y, |p| + |x|);
    ChainKept(before, tails, heads, p + x + y + q, q, |p| + |x| + |y|);
    ChainJoin(p, y);
    ChainJoin(p + y, x);
    ChainJoin(p + y + x, q);
  }

  /** The three new links move d[b..c] out of the ring d[n..] and into the ring d[..n], before position `a`. */
  lemma MovedBetween(before: Links, d: seq<Item>, a: nat, n: nat, b: nat, c: nat)
    requires 0 < a <= n < b < c <= |d| && Distinct(d)
    requires ChainIn(before, d[..a] + (d[a..n] + [d[0]])) && ChainIn(before, d[n..b] + d[b..c] + (d[c..] + [d[n]]))
    requires var pos, end := if a < n then a else 0, if c < |d| then c else n;
      && RelinkedOnly(before, At3(d, a - 1, b - 1, c - 1), At3(d, pos, b, end))
      && Linked(d[a - 1], d[b]) && Linked(d[c - 1], d[pos]) && Linked(d[b - 1], d[end])
    ensures Chain(d[..a] + d[b..c] + (d[a..n] + [d[0]]))
    ensures Chain(d[n..b] + (d[c..] + [d[n]]))
  {
    var pos, end := if a < n then a else 0, if c < |d| then c else n;
    var t, h := (a - 1, b - 1, c - 1), (pos, b, end);
    var tails, heads := At3(d, a - 1, b - 1, c - 1), At3(d, pos, b, end);
    SliceUntouched(d, 0, a, t, h);
    EndUntouched(d, a, n, 0, t, h);
    SliceUntouched(d, n, b, t, h);
    SliceUntouched(d, b, c, t, h);
    EndUntouched(d, c, |d|, n, t, h);
    assert d[0..a] == d[..a] && d[c..|d|] == d[c..];
    ChainCut(before, tails, heads, d[n..b], d[b..c], d[c..] + [d[n]]);
    ChainInsert(before, tails, heads, d[..a], d[b..c], d[a..n] + [d[0]]);
  }

  /** Within one ring they exchange the neighbouring segments d[a..b] and d[b..c]. */
  lemma MovedWithin(before: Links, d: seq<Item>, a: nat, b: nat, c: nat)
    requires 0 < a < b < c <= |d| && Distinct(d)
    requires ChainIn(before, d[..a] + d[a..b] + d[b..c] + (d[c..] + [d[0]]))
    requires var end := if c < |d| then c else 0;
      && RelinkedOnly(before, At3(d, a - 1, b - 1, c - 1), At3(d, a, b, end))
      && Linked(d[a - 1], d[b]) && Linked(d[c - 1], d[a]) && Linked(d[b - 1], d[end])
    ensures Chain(d[..a] + d[b..c] + d[a..b] + (d[c..] + [d[0]]))
  {
    var end := if c < |d| then c else 0;
    var t, h := (a - 1, b - 1, c - 1), (a, b, end);
    var tails, heads := At3(d, a - 1, b - 1, c - 1), At3(d, a, b, end);
    SliceUntouched(d, 0, a, t, h);
    SliceUntouched(d, a, b, t, h);
    SliceUntouched(d, b, c, t, h);
    EndUntouched(d, c, |d|, 0, t, h);
    assert d[0..a] == d[..a] && d[c..|d|] == d[c..];
    ChainExchange(before, tails, heads, d[..a], d[a..b], d[b..c], d[c..] + [d[0]]);
  }

  ghost function AtIn(s: Item, items: seq<Item>, k: nat): Item
    requires k <= |items|
  {
    if k < |items| then items[k] else s
  }

  ghost function PredIn(s: Item, items: seq<Item>, k: nat): Item
    requires k <= |items|
  {
    if k == 0 then s else items[k - 1]
  }

  class List {
    const sentinel: Item
    var length: size_t
    ghost var items: seq<Item>

    /** The items, from the sentinel round to the sentinel again. */
    ghost function Walk(): seq<Item>
      reads `items
    {
      [sentinel] + items + [sentinel]
    }

    ghost function Nodes(): set<Item>
      reads `items
    {
      ItemsOf([sentinel] + items)
    }

    /** The links are those of a circular list of `items`. */
    ghost predicate WellLinked()
      reads `items, Nodes()
    {
      Distinct([sentinel] + items) && Chain(Walk())
    }

    ghost predicate Valid()
      reads this, Nodes()
    {
      WellLinked() && length == Wrap(|items|)
    }

    /** The `k`-th item; the sentinel stands at the end. */
    ghost function At(k: nat): Item
      requires k <= |items|
      reads `items
    {
      AtIn(sentinel, items, k)
    }

    constructor ()
      ensures Valid() && items == [] && fresh(sentinel)
    {
      var s := new Item();
      sentinel := s;
      length := 0;
      items := [];
      new;
      s.next, s.prev := s, s;
      assert Walk() == [s, s];
    }
  }

  /** The node before position `k` of a list; the sentinel stands before the first item. */
  ghost function Pred(l: List, k: nat): Item
    requires k <= |l.items|
    reads l`items
  {
    PredIn(l.sentinel, l.items, k)
  }

  lemma Neighbours(l: List, k: nat)
    requires l.WellLinked() && k <= |l.items|
    ensures Linked(Pred(l, k), l.At(k))
    ensures Pred(l, k) in l.Nodes() && l.At(k) in l.Nodes()
  {
    var w := l.Walk();
    assert Linked(w[k], w[k + 1]);
    var r := [l.sentinel] + l.items;
    assert r[k] == Pred(l, k);
    assert k < |l.items| ==> r[k + 1] == l.At(k);
    assert r[0] == l.sentinel;
  }

  /** Different positions of a list are different nodes, with different predecessors. */
  lemma PositionsDiffer(l: List, j: nat, k: nat)
    requires l.WellLinked() && j <= |l.items| && k <= |l.items| && j != k
    ensures l.At(j) != l.At(k) && Pred(l, j) != Pred(l, k)
  {
    var r := [l.sentinel] + l.items;
    assert r[j] == Pred(l, j) && r[k] == Pred(l, k);
    var j', k' := if j == |l.items| then 0 else j + 1, if k == |l.items| then 0 else k + 1;
    assert r[j'] == l.At(j) && r[k'] == l.At(k);
  }

  /** The three cuts of a transfer are at different places. */
  predicate Cuts(pos: Item, begin: Item, end: Item)
    reads pos, begin, end
  {
    begin != end && pos != begin && pos.prev != begin.prev && pos.prev != end.prev && begin.prev != end.prev
  }

  /** `ww_list_transfer`: unlink [begin, end) and link it in before `pos`. For an empty segment, or with `pos`
      inside it, the links come out wrong. */
  method Transfer(pos: Item, begin: Item, end: Item)
    requires pos.prev != null && begin.prev != null && end.prev != null
    modifies pos`prev, begin`prev, end`prev, pos.prev`next, begin.prev`next, end.prev`next
    ensures pos == end ==> unchanged(pos, begin, old(pos.prev), old(begin.prev))
    ensures pos != end && old(Cuts(pos, begin, end)) ==>
      Linked(old(end.prev), pos) && Linked(old(begin.prev), end) && Linked(old(pos.prev), begin)
    ensures pos != end && pos == begin && old(begin.prev) == end && old(end.prev) != end ==>
      end.next == begin && old(end.prev).next == begin
    ensures pos != end && pos != begin && begin != end && old(begin.prev) == end && old(pos.prev) != end ==>
      end.next == end && end.prev == end
    ensures pos != end && begin == end ==> begin.prev == old(pos.prev) && old(pos.prev).next == begin
    ensures pos != end && begin == end && old(begin.prev) == begin ==> begin.next == begin
  {
    if pos != end {
      end.prev.next := pos;
      begin.prev.next := end;
      pos.prev.next := begin;
      var tmp := pos.prev;
      pos.prev := end.prev;
      end.prev := begin.prev;
      begin.prev := tmp;
    }
  }

  /** `items` with the segment from `i` to `j` moved before position `k`. */
  ghost function Moved<T>(items: seq<T>, i: nat, j: nat, k: nat): seq<T>
    requires i <= j <= |items| && k <= |items| && !(i <= k < j)
  {
    if k < i then items[..k] + items[i..j] + items[k..i] + items[j..]
    else items[..i] + items[j..k] + items[i..j] + items[k..]
  }

  lemma ChainNow(before: Links, w: seq<Item>)
    requires Chain(w) && forall x :: x in w ==> x in before && before[x] == (x.next, x.prev)
    ensures ChainIn(before, w)
  {
    forall i | 0 <= i < |w| - 1 ensures before[w[i]].0 == w[i + 1] && before[w[i + 1]].1 == w[i] {
      assert Linked(w[i], w[i + 1]);
    }
  }

  /** Exchanging neighbouring segments of a duplicate-free list only permutes it. */
  lemma ExchangeDistinct(d: seq<Item>, a: nat, b: nat, c: nat)
    requires 0 < a <= b <= c <= |d| && Distinct(d)
    ensures var r := d[..a] + d[b..c] + d[a..b] + d[c..]; Distinct(r) && ItemsOf(r) == ItemsOf(d)
  {
    var r := d[..a] + d[b..c] + d[a..b] + d[c..];
    var m := a + c - b;
    forall i | 0 <= i < |r| ensures r[i] == d[if i < a || c <= i then i else if i < m then i + b - a else i - m + a] { }
    forall i | 0 <= i < |d| ensures d[i] in r {
      assert d[i] == r[if i < a || c <= i then i else if i < b then i - a + m else i - b + a];
    }
    forall x | x in r ensures x in d { }
  }

  /** Where a move within one list cuts the ring: the two segments that change places. */
  ghost function Cut1(i: nat, k: nat): nat { if k < i then k + 1 else i + 1 }
  ghost function Cut2(i: nat, j: nat, k: nat): nat { if k < i then i + 1 else j + 1 }
  ghost function Cut3(i: nat, j: nat, k: nat): nat { if k < i then j + 1 else k + 1 }

  /** Three positions of a list are three nodes with three predecessors. */
  lemma ThreePositions(l: List, i: nat, j: nat, k: nat)
    requires l.WellLinked() && i < j <= |l.items| && k <= |l.items| && (k < i || j < k)
    ensures var pos, first, last := l.At(k), l.At(i), l.At(j);
      && Linked(Pred(l, k), pos) && Linked(Pred(l, i), first) && Linked(Pred(l, j), last)
      && {pos, first, last, Pred(l, k), Pred(l, i), Pred(l, j)} <= l.Nodes()
      && pos != last && first != last && pos != first
      && Pred(l, k) != Pred(l, i) && Pred(l, k) != Pred(l, j) && Pred(l, i) != Pred(l, j)
  {
    Neighbours(l, i);
    Neighbours(l, j);
    Neighbours(l, k);
    PositionsDiffer(l, i, j);
    PositionsDiffer(l, i, k);
    PositionsDiffer(l, j, k);
  }

  lemma Prepend<T>(s: T, w: seq<T>, x: seq<T>, y: seq<T>, z: seq<T>)
    ensures [s] + (w + x + y + z) == ([s] + w) + x + y + z
  {
  }

  /** Exchanging two segments of a list exchanges them in the ring that starts with `s`. */
  lemma ExchangeCons<T>(s: T, items: seq<T>, a: nat, b: nat, c: nat)
    requires a <= b <= c <= |items|
    ensures var d := [s] + items;
      [s] + (items[..a] + items[b..c] + items[a..b] + items[c..]) ==
      d[..a + 1] + d[b + 1..c + 1] + d[a + 1..b + 1] + d[c + 1..]
  {
    var d := [s] + items;
    assert d[..a + 1] == [s] + items[..a];
    assert d[b + 1..c + 1] == items[b..c];
    assert d[a + 1..b + 1] == items[a..b];
    assert d[c + 1..] == items[c..];
    Prepend(s, items[..a], items[b..c], items[a..b], items[c..]);
  }

  lemma MovedIsExchange<T>(items: seq<T>, i: nat, j: nat, k: nat)
    requires i < j <= |items| && k <= |items| && (k < i || j < k)
    ensures var a, b, c := Cut1(i, k) - 1, Cut2(i, j, k) - 1, Cut3(i, j, k) - 1;
      Moved(items, i, j, k) == items[..a] + items[b..c] + items[a..b] + items[c..]
  {
  }

  lemma Parts<T>(d: seq<T>, a: nat, b: nat, c: nat, z: T)
    requires a <= b <= c <= |d|
    ensures d + [z] == d[..a] + d[a..b] + d[b..c] + (d[c..] + [z])
  {
  }

  /** The ring of `s` and `items`, as it was. */
  ghost predicate WasRing(before: Links, s: Item, items: seq<Item>) {
    Distinct([s] + items) && ChainIn(before, [s] + items + [s])
  }

  lemma FinishWithin(before: Links, s: Item, items: seq<Item>, i: nat, j: nat, k: nat)
    requires WasRing(before, s, items) && i < j <= |items| && k <= |items| && (k < i || j < k)
    requires RelinkedOnly(before, {PredIn(s, items, k), PredIn(s, items, i), PredIn(s, items, j)},
                          {AtIn(s, items, k), AtIn(s, items, i), AtIn(s, items, j)})
    requires Linked(PredIn(s, items, k), AtIn(s, items, i))
    requires Linked(PredIn(s, items, j), AtIn(s, items, k))
    requires Linked(PredIn(s, items, i), AtIn(s, items, j))
    ensures var r := Moved(items, i, j, k);
      && Chain([s] + r + [s]) && Distinct([s] + r) && ItemsOf([s] + r) == ItemsOf([s] + items)
  {
    var d, a, b, c := [s] + items, Cut1(i, k), Cut2(i, j, k), Cut3(i, j, k);
    MovedIsExchange(items, i, j, k);
    ExchangeCons(s, items, a - 1, b - 1, c - 1);
    Parts(d, a, b, c, s);
    CutItems(s, items, i, j, k);
    MovedWithin(before, d, a, b, c);
    ExchangeDistinct(d, a, b, c);
    Regroup(d[..a], d[b..c], d[a..b], d[c..], s);
  }

  lemma Regroup<T>(p: seq<T>, x: seq<T>, y: seq<T>, q: seq<T>, z: T)
    ensures p + x + y + (q + [z]) == (p + x + y + q) + [z]
  {
  }

  /** The nodes whose links change are the ends of the cuts. */
  lemma CutItems(s: Item, items: seq<Item>, i: nat, j: nat, k: nat)
    requires i < j <= |items| && k <= |items| && (k < i || j < k)
    ensures var d, a, b, c := [s] + items, Cut1(i, k), Cut2(i, j, k), Cut3(i, j, k);
      && {PredIn(s, items, k), PredIn(s, items, i), PredIn(s, items, j)} == At3(d, a - 1, b - 1, c - 1)
      && {AtIn(s, items, k), AtIn(s, items, i), AtIn(s, items, j)} == At3(d, a, b, if c < |d| then c else 0)
      && (k < i ==> d[a] == AtIn(s, items, k) && d[b] == AtIn(s, items, i)
                    && d[a - 1] == PredIn(s, items, k) && d[b - 1] == PredIn(s, items, i)
                    && d[c - 1] == PredIn(s, items, j)
                    && (if c < |d| then d[c] else d[0]) == AtIn(s, items, j))
      && (j < k ==> d[a] == AtIn(s, items, i) && d[b] == AtIn(s, items, j)
                    && d[a - 1] == PredIn(s, items, i) && d[b - 1] == PredIn(s, items, j)
                    && d[c - 1] == PredIn(s, items, k)
                    && (if c < |d| then d[c] else d[0]) == AtIn(s, items, k))
  {
  }

  /** The pointer surgery itself, within one list; before `last` itself it changes nothing. */
  method MoveLinksWithin(l: List, pos: Item, first: Item, last: Item, ghost i: nat, ghost j: nat, ghost k: nat,
                         ghost before: Links)
    requires l.WellLinked() && i < j <= |l.items| && k <= |l.items| && !(i <= k < j)
    requires pos == l.At(k) && first == l.At(i) && last == l.At(j)
    requires before == LinksOf(l.Nodes())
    modifies l`items, l.Nodes()
    ensures l.items == Moved(old(l.items), i, j, k)
    ensures k == j ==> RelinkedOnly(before, {}, {})
    ensures k != j ==> RelinkedOnly(before, old({Pred(l, k), Pred(l, i), Pred(l, j)}), {pos, first, last})
    ensures k != j ==>
      Linked(old(Pred(l, k)), first) && Linked(old(Pred(l, j)), pos) && Linked(old(Pred(l, i)), last)
  {
    Neighbours(l, k);
    Neighbours(l, i);
    if k != j { ThreePositions(l, i, j, k); }
    l.items := Moved(l.items, i, j, k);
    Transfer(pos, first, last);
  }

  /** Transfer of a segment within one list. */
  method TransferWithin(l: List, pos: Item, first: Item, last: Item, ghost i: nat, ghost j: nat, ghost k: nat)
    requires l.WellLinked() && i < j <= |l.items| && k <= |l.items| && !(i <= k < j)
    requires pos == l.At(k) && first == l.At(i) && last == l.At(j)
    modifies l`items, l.Nodes()
    ensures l.WellLinked() && l.items == Moved(old(l.items), i, j, k)
    ensures l.Nodes() == old(l.Nodes())
  {
    ghost var before, items := LinksOf(l.Nodes()), l.items;
    ChainNow(before, l.Walk());
    MoveLinksWithin(l, pos, first, last, i, j, k, before);
    if k != j {
      FinishWithin(before, l.sentinel, items, i, j, k);
    } else {
      assert Moved(items, i, j, k) == items;
      ChainKept(before, {}, {}, l.Walk(), l.Walk(), 0);
    }
  }

  /** The slices of two rings laid end to end. */
  lemma TwoRings(s1: Item, l1: seq<Item>, s2: Item, l2: seq<Item>, i: nat, j: nat, k: nat)
    requires i < j <= |l2| && k <= |l1|
    ensures var d, a, n := ([s1] + l1) + ([s2] + l2), k + 1, |l1| + 1;
      && d[..a] == [s1] + l1[..k] && d[a..n] == l1[k..]
      && d[n..n + 1 + i] == [s2] + l2[..i] && d[n + 1 + i..n + 1 + j] == l2[i..j] && d[n + 1 + j..] == l2[j..]
      && d[0] == s1 && d[n] == s2
  {
  }

  lemma TwoWalks(s1: Item, l1: seq<Item>, s2: Item, l2: seq<Item>, i: nat, j: nat, k: nat)
    requires i < j <= |l2| && k <= |l1|
    ensures [s1] + l1 + [s1] == ([s1] + l1[..k]) + (l1[k..] + [s1])
    ensures [s2] + l2 + [s2] == ([s2] + l2[..i]) + l2[i..j] + (l2[j..] + [s2])
    ensures [s1] + (l1[..k] + l2[i..j] + l1[k..]) + [s1] == ([s1] + l1[..k]) + l2[i..j] + (l1[k..] + [s1])
    ensures [s2] + (l2[..i] + l2[j..]) + [s2] == ([s2] + l2[..i]) + (l2[j..] + [s2])
  {
  }

  /** The walks round both rings, before and after, in slices of the rings laid end to end. */
  lemma WalksInSlices(s1: Item, l1: seq<Item>, s2: Item, l2: seq<Item>, i: nat, j: nat, k: nat)
    requires i < j <= |l2| && k <= |l1|
    ensures var d, a, n, b, c := ([s1] + l1) + ([s2] + l2), k + 1, |l1| + 1, |l1| + 2 + i, |l1| + 2 + j;
      && [s1] + l1 + [s1] == d[..a] + (d[a..n] + [d[0]])
      && [s2] + l2 + [s2] == d[n..b] + d[b..c] + (d[c..] + [d[n]])
      && [s1] + (l1[..k] + l2[i..j] + l1[k..]) + [s1] == d[..a] + d[b..c] + (d[a..n] + [d[0]])
      && [s2] + (l2[..i] + l2[j..]) + [s2] == d[n..b] + (d[c..] + [d[n]])
  {
    TwoRings(s1, l1, s2, l2, i, j, k);
    TwoWalks(s1, l1, s2, l2, i, j, k);
  }

  lemma DistinctParts(a: seq<Item>, b: seq<Item>)
    requires Distinct(a + b)
    ensures Distinct(a) && Distinct(b) && ItemsOf(a) !! ItemsOf(b) && ItemsOf(a + b) == ItemsOf(a) + ItemsOf(b)
  {
    var d := a + b;
    forall i, j | 0 <= i < j < |a| ensures a[i] != a[j] { assert d[i] != d[j]; }
    forall i, j | 0 <= i < j < |b| ensures b[i] != b[j] { assert d[|a| + i] != d[|a| + j]; }
    forall i, j | 0 <= i < |a| && 0 <= j < |b| ensures a[i] != b[j] { assert d[i] != d[|a| + j]; }
  }

  lemma DistinctJoin(a: seq<Item>, b: seq<Item>)
    requires Distinct(a) && Distinct(b) && ItemsOf(a) !! ItemsOf(b)
    ensures Distinct(a + b) && ItemsOf(a + b) == ItemsOf(a) + ItemsOf(b)
  {
    forall i, j | 0 <= i < |a| && 0 <= j < |b| ensures a[i] != b[j] {
      assert a[i] in ItemsOf(a) && b[j] in ItemsOf(b);
    }
  }

  /** Moving the segment `y` from one ring to the other keeps all nodes distinct. */
  lemma PiecesAfter(s1: seq<Item>, u: seq<Item>, v: seq<Item>, s2: seq<Item>, x: seq<Item>, y: seq<Item>, z: seq<Item>)
    requires Distinct(s1 + (u + v)) && Distinct(s2 + (x + y + z))
    requires ItemsOf(s1 + (u + v)) !! ItemsOf(s2 + (x + y + z))
    ensures Distinct(s1 + (u + y + v)) && Distinct(s2 + (x + z))
    ensures ItemsOf(s1 + (u + y + v)) !! ItemsOf(s2 + (x + z))
    ensures ItemsOf(s1 + (u + y + v)) + ItemsOf(s2 + (x + z)) == ItemsOf(s1 + (u + v)) + ItemsOf(s2 + (x + y + z))
  {
    DistinctParts(s1, u + v);
    DistinctParts(u, v);
    DistinctParts(s2, x + y + z);
    DistinctParts(x + y, z);
    DistinctParts(x, y);
    DistinctJoin(u, y);
    DistinctJoin(u + y, v);
    DistinctJoin(s1, u + y + v);
    DistinctJoin(x, z);
    DistinctJoin(s2, x + z);
  }

  lemma RingsAfter(s1: Item, l1: seq<Item>, s2: Item, l2: seq<Item>, i: nat, j: nat, k: nat)
    requires i < j <= |l2| && k <= |l1|
    requires Distinct([s1] + l1) && Distinct([s2] + l2) && ItemsOf([s1] + l1) !! ItemsOf([s2] + l2)
    ensures Distinct(([s1] + l1) + ([s2] + l2))
    ensures var r1, r2 := [s1] + (l1[..k] + l2[i..j] + l1[k..]), [s2] + (l2[..i] + l2[j..]);
      && Distinct(r1) && Distinct(r2) && ItemsOf(r1) !! ItemsOf(r2)
      && ItemsOf(r1) + ItemsOf(r2) == ItemsOf([s1] + l1) + ItemsOf([s2] + l2)
  {
    DistinctJoin([s1] + l1, [s2] + l2);
    assert l1 == l1[..k] + l1[k..] && l2 == l2[..i] + l2[i..j] + l2[j..];
    PiecesAfter([s1], l1[..k], l1[k..], [s2], l2[..i], l2[i..j], l2[j..]);
  }

  /** The same with the walks and the relinked nodes under their own names. */
  lemma MovedBetweenWalks(before: Links, d: seq<Item>, a: nat, n: nat, b: nat, c: nat,
                          w1: seq<Item>, w2: seq<Item>, v1: seq<Item>, v2: seq<Item>,
                          p: (Item, Item, Item), x: (Item, Item, Item))
    requires 0 < a <= n < b < c <= |d| && Distinct(d)
    requires w1 == d[..a] + (d[a..n] + [d[0]]) && w2 == d[n..b] + d[b..c] + (d[c..] + [d[n]])
    requires v1 == d[..a] + d[b..c] + (d[a..n] + [d[0]]) && v2 == d[n..b] + (d[c..] + [d[n]])
    requires p == (d[a - 1], d[b - 1], d[c - 1])
    requires x == (if a < n then d[a] else d[0], d[b], if c < |d| then d[c] else d[n])
    requires ChainIn(before, w1) && ChainIn(before, w2)
    requires RelinkedOnly(before, {p.0, p.1, p.2}, {x.0, x.1, x.2})
    requires Linked(p.0, x.1) && Linked(p.2, x.0) && Linked(p.1, x.2)
    ensures Chain(v1) && Chain(v2)
  {
    MovedBetween(before, d, a, n, b, c);
  }

  lemma FinishBetween(before: Links, s1: Item, l1: seq<Item>, s2: Item, l2: seq<Item>, i: nat, j: nat, k: nat)
    requires ChainIn(before, [s1] + l1 + [s1]) && ChainIn(before, [s2] + l2 + [s2]) && i < j <= |l2| && k <= |l1|
    requires Distinct(([s1] + l1) + ([s2] + l2))
    requires RelinkedOnly(before, {PredIn(s1, l1, k), PredIn(s2, l2, i), PredIn(s2, l2, j)},
                          {AtIn(s1, l1, k), AtIn(s2, l2, i), AtIn(s2, l2, j)})
    requires Linked(PredIn(s1, l1, k), AtIn(s2, l2, i))
    requires Linked(PredIn(s2, l2, j), AtIn(s1, l1, k))
    requires Linked(PredIn(s2, l2, i), AtIn(s2, l2, j))
    ensures Chain([s1] + (l1[..k] + l2[i..j] + l1[k..]) + [s1])
    ensures Chain([s2] + (l2[..i] + l2[j..]) + [s2])
  {
    var d := LaidOut(s1, l1, s2, l2, i, j, k);
    var w1, w2 := [s1] + l1 + [s1], [s2] + l2 + [s2];
    var v1, v2 := [s1] + (l1[..k] + l2[i..j] + l1[k..]) + [s1], [s2] + (l2[..i] + l2[j..]) + [s2];
    var p := (PredIn(s1, l1, k), PredIn(s2, l2, i), PredIn(s2, l2, j));
    var x := (AtIn(s1, l1, k), AtIn(s2, l2, i), AtIn(s2, l2, j));
    MovedBetweenWalks(before, d, k + 1, |l1| + 1, |l1| + 2 + i, |l1| + 2 + j, w1, w2, v1, v2, p, x);
  }

  /** The two rings end to end, with their walks in slices and the nodes at the cuts. */
  lemma LaidOut(s1: Item, l1: seq<Item>, s2: Item, l2: seq<Item>, i: nat, j: nat, k: nat) returns (d: seq<Item>)
    requires i < j <= |l2| && k <= |l1| && Distinct(([s1] + l1) + ([s2] + l2))
    ensures Distinct(d) && |d| == |l1| + |l2| + 2
    ensures var a, n, b, c := k + 1, |l1| + 1, |l1| + 2 + i, |l1| + 2 + j;
      && [s1] + l1 + [s1] == d[..a] + (d[a..n] + [d[0]])
      && [s2] + l2 + [s2] == d[n..b] + d[b..c] + (d[c..] + [d[n]])
      && [s1] + (l1[..k] + l2[i..j] + l1[k..]) + [s1] == d[..a] + d[b..c] + (d[a..n] + [d[0]])
      && [s2] + (l2[..i] + l2[j..]) + [s2] == d[n..b] + (d[c..] + [d[n]])
      && d[a - 1] == PredIn(s1, l1, k) && d[b - 1] == PredIn(s2, l2, i) && d[c - 1] == PredIn(s2, l2, j)
      && (if a < n then d[a] else d[0]) == AtIn(s1, l1, k)
      && d[b] == AtIn(s2, l2, i)
      && (if c < |d| then d[c] else d[n]) == AtIn(s2, l2, j)
  {
    d := ([s1] + l1) + ([s2] + l2);
    WalksInSlices(s1, l1, s2, l2, i, j, k);
    CutItemsBetween(s1, l1, s2, l2, i, j, k);
  }

  lemma CutItemsBetween(s1: Item, l1: seq<Item>, s2: Item, l2: seq<Item>, i: nat, j: nat, k: nat)
    requires i < j <= |l2| && k <= |l1|
    ensures var d, a, n, b, c := ([s1] + l1) + ([s2] + l2), k + 1, |l1| + 1, |l1| + 2 + i, |l1| + 2 + j;
      && d[a - 1] == PredIn(s1, l1, k) && d[b - 1] == PredIn(s2, l2, i) && d[c - 1] == PredIn(s2, l2, j)
      && (if a < n then d[a] else d[0]) == AtIn(s1, l1, k)
      && d[b] == AtIn(s2, l2, i)
      && (if c < |d| then d[c] else d[n]) == AtIn(s2, l2, j)
  {
  }

  lemma SnapshotBetween(l: List, x: List, i: nat, j: nat, k: nat)
    requires l.WellLinked() && x.WellLinked() && l.Nodes() !! x.Nodes() && i < j <= |x.items| && k <= |l.items|
    ensures var s1, l1, s2, l2 := l.sentinel, l.items, x.sentinel, x.items;
      var r1, r2 := [s1] + (l1[..k] + l2[i..j] + l1[k..]), [s2] + (l2[..i] + l2[j..]);
      && ChainIn(LinksOf(l.Nodes() + x.Nodes()), [s1] + l1 + [s1])
      && ChainIn(LinksOf(l.Nodes() + x.Nodes()), [s2] + l2 + [s2])
      && Distinct(([s1] + l1) + ([s2] + l2))
      && Distinct(r1) && Distinct(r2) && ItemsOf(r1) !! ItemsOf(r2)
      && ItemsOf(r1) + ItemsOf(r2) == l.Nodes() + x.Nodes()
  {
    ChainNow(LinksOf(l.Nodes() + x.Nodes()), l.Walk());
    ChainNow(LinksOf(l.Nodes() + x.Nodes()), x.Walk());
    RingsAfter(l.sentinel, l.items, x.sentinel, x.items, i, j, k);
  }

  /** The pointer surgery itself, between two lists. */
  method MoveLinks(l: List, pos: Item, x: List, first: Item, last: Item, ghost i: nat, ghost j: nat, ghost k: nat,
                   ghost before: Links)
    requires l.WellLinked() && x.WellLinked() && l.Nodes() !! x.Nodes() && i < j <= |x.items| && k <= |l.items|
    requires pos == l.At(k) && first == x.At(i) && last == x.At(j)
    requires before == LinksOf(l.Nodes() + x.Nodes())
    modifies l.Nodes(), x.Nodes()
    ensures RelinkedOnly(before, {Pred(l, k), Pred(x, i), Pred(x, j)}, {pos, first, last})
    ensures Linked(Pred(l, k), first) && Linked(Pred(x, j), pos) && Linked(Pred(x, i), last)
  {
    PositionsBetween(l, x, i, j, k);
    Transfer(pos, first, last);
  }

  /** Transfer of a segment from one list to another. */
  method TransferBetween(l: List, pos: Item, x: List, first: Item, last: Item, ghost i: nat, ghost j: nat, ghost k: nat)
    requires l != x && l.WellLinked() && x.WellLinked() && l.Nodes() !! x.Nodes()
    requires i < j <= |x.items| && k <= |l.items|
    requires pos == l.At(k) && first == x.At(i) && last == x.At(j)
    modifies l`items, x`items, l.Nodes(), x.Nodes()
    ensures l.WellLinked() && x.WellLinked() && l.Nodes() !! x.Nodes()
    ensures l.items == old(l.items)[..k] + old(x.items)[i..j] + old(l.items)[k..]
    ensures x.items == old(x.items)[..i] + old(x.items)[j..]
    ensures l.Nodes() + x.Nodes() == old(l.Nodes() + x.Nodes())
  {
    ghost var before, l1, l2 := LinksOf(l.Nodes() + x.Nodes()), l.items, x.items;
    SnapshotBetween(l, x, i, j, k);
    MoveLinks(l, pos, x, first, last, i, j, k, before);
    FinishBetween(before, l.sentinel, l1, x.sentinel, l2, i, j, k);
    l.items := l1[..k] + l2[i..j] + l1[k..];
    x.items := l2[..i] + l2[j..];
  }

  lemma PositionsBetween(l: List, x: List, i: nat, j: nat, k: nat)
    requires l.WellLinked() && x.WellLinked() && l.Nodes() !! x.Nodes() && i < j <= |x.items| && k <= |l.items|
    ensures var pos, first, last := l.At(k), x.At(i), x.At(j);
      && Linked(Pred(l, k), pos) && Linked(Pred(x, i), first) && Linked(Pred(x, j), last)
      && {pos, Pred(l, k)} <= l.Nodes() && {first, last, Pred(x, i), Pred(x, j)} <= x.Nodes()
      && first != last && Pred(x, i) != Pred(x, j)
  {
    Neighbours(l, k);
    Neighbours(x, i);
    Neighbours(x, j);
    PositionsDiffer(x, i, j);
  }

  /** `ww_list_splice`: move [first, last) of `xlist` before `pos` of `thislist`; both may be one list. */
  method Splice(thislist: List, pos: Item, xlist: List, first: Item, last: Item,
                ghost k: nat, ghost i: nat, ghost j: nat)
    requires thislist.WellLinked() && xlist.WellLinked()
    requires thislist != xlist ==> thislist.Nodes() !! xlist.Nodes()
    requires k <= |thislist.items| && i <= j <= |xlist.items|
    requires pos == thislist.At(k) && first == xlist.At(i) && last == xlist.At(j)
    requires thislist == xlist ==> !(i <= k < j)
    modifies thislist, xlist, thislist.Nodes(), xlist.Nodes()
    ensures thislist.WellLinked() && xlist.WellLinked()
    ensures thislist.Nodes() + xlist.Nodes() == old(thislist.Nodes() + xlist.Nodes())
    ensures thislist == xlist ==>
      thislist.items == Moved(old(thislist.items), i, j, k) && thislist.length == old(thislist.length)
    ensures thislist != xlist ==>
      && thislist.Nodes() !! xlist.Nodes()
      && thislist.items == old(thislist.items)[..k] + old(xlist.items)[i..j] + old(thislist.items)[k..]
      && xlist.items == old(xlist.items)[..i] + old(xlist.items)[j..]
      && thislist.length == Wrap(old(thislist.length) + (j - i)) && xlist.length == Wrap(old(xlist.length) - (j - i))
    ensures old(thislist.Valid() && xlist.Valid()) ==> thislist.Valid() && xlist.Valid()
  {
    if i != j { PositionsDiffer(xlist, i, j); } else { NothingSpliced(thislist, xlist, k, i, j); }
    if first != last {
      SpliceSegment(thislist, pos, xlist, first, last, k, i, j);
    }
  }

  /** The same for a segment that is not empty. */
  method SpliceSegment(thislist: List, pos: Item, xlist: List, first: Item, last: Item,
                       ghost k: nat, ghost i: nat, ghost j: nat)
    requires thislist.WellLinked() && xlist.WellLinked()
    requires thislist != xlist ==> thislist.Nodes() !! xlist.Nodes()
    requires k <= |thislist.items| && i < j <= |xlist.items|
    requires pos == thislist.At(k) && first == xlist.At(i) && last == xlist.At(j)
    requires thislist == xlist ==> !(i <= k < j)
    modifies thislist, xlist, thislist.Nodes(), xlist.Nodes()
    ensures thislist.WellLinked() && xlist.WellLinked()
    ensures thislist.Nodes() + xlist.Nodes() == old(thislist.Nodes() + xlist.Nodes())
    ensures thislist == xlist ==>
      thislist.items == Moved(old(thislist.items), i, j, k) && thislist.length == old(thislist.length)
    ensures thislist != xlist ==>
      && thislist.Nodes() !! xlist.Nodes()
      && thislist.items == old(thislist.items)[..k] + old(xlist.items)[i..j] + old(thislist.items)[k..]
      && xlist.items == old(xlist.items)[..i] + old(xlist.items)[j..]
      && thislist.length == Wrap(old(thislist.length) + (j - i)) && xlist.length == Wrap(old(xlist.length) - (j - i))
    ensures old(thislist.Valid() && xlist.Valid()) ==> thislist.Valid() && xlist.Valid()
  {
    var change := CountSegment(xlist, first, last, i, j);
    if thislist != xlist {
      SpliceBetween(thislist, pos, xlist, first, last, change, k, i, j);
    } else {
      SpliceWithin(thislist, pos, first, last, change, k, i, j);
    }
  }

  lemma NothingSpliced(thislist: List, xlist: List, k: nat, i: nat, j: nat)
    requires k <= |thislist.items| && i == j <= |xlist.items|
    ensures thislist == xlist ==> thislist.items == Moved(thislist.items, i, j, k)
    ensures thislist.items == thislist.items[..k] + xlist.items[i..j] + thislist.items[k..]
    ensures xlist.items == xlist.items[..i] + xlist.items[j..]
    ensures thislist.length == Wrap(thislist.length + (j - i)) && xlist.length == Wrap(xlist.length - (j - i))
  {
  }

  method SpliceWithin(l: List, pos: Item, first: Item, last: Item, change: nat,
                      ghost k: nat, ghost i: nat, ghost j: nat)
    requires l.WellLinked() && i < j <= |l.items| && k <= |l.items| && !(i <= k < j) && change == j - i
    requires pos == l.At(k) && first == l.At(i) && last == l.At(j)
    modifies l, l.Nodes()
    ensures l.WellLinked() && l.items == Moved(old(l.items), i, j, k) && l.Nodes() == old(l.Nodes())
    ensures l.length == old(l.length) && (old(l.Valid()) ==> l.Valid())
  {
    ghost var length := l.length;
    BackAgain(length, change);
    TransferWithin(l, pos, first, last, i, j, k);
    assert l.length == length;
    l.length := Wrap(l.length + change);
    l.length := Wrap(l.length - change);
  }

  method SpliceBetween(l: List, pos: Item, x: List, first: Item, last: Item, change: nat,
                       ghost k: nat, ghost i: nat, ghost j: nat)
    requires l != x && l.WellLinked() && x.WellLinked() && l.Nodes() !! x.Nodes()
    requires i < j <= |x.items| && k <= |l.items| && change == j - i
    requires pos == l.At(k) && first == x.At(i) && last == x.At(j)
    modifies l, x, l.Nodes(), x.Nodes()
    ensures l.WellLinked() && x.WellLinked() && l.Nodes() !! x.Nodes()
    ensures l.items == old(l.items)[..k] + old(x.items)[i..j] + old(l.items)[k..]
    ensures x.items == old(x.items)[..i] + old(x.items)[j..]
    ensures l.Nodes() + x.Nodes() == old(l.Nodes() + x.Nodes())
    ensures l.length == Wrap(old(l.length) + change) && x.length == Wrap(old(x.length) - change)
    ensures old(l.Valid() && x.Valid()) ==> l.Valid() && x.Valid()
  {
    ghost var m, n := |l.items|, |x.items|;
    TransferBetween(l, pos, x, first, last, i, j, k);
    MoveCount(l, x, change, m, n);
  }

  /** The lengths follow, each round the word where it has to. */
  method MoveCount(l: List, x: List, change: nat, ghost m: int, ghost n: int)
    requires l != x
    modifies l`length, x`length
    ensures l.length == Wrap(old(l.length) + change) && x.length == Wrap(old(x.length) - change)
    ensures old(l.length) == Wrap(m) ==> l.length == Wrap(m + change)
    ensures old(x.length) == Wrap(n) ==> x.length == Wrap(n - change)
  {
    Counts(l.length, m, change);
    Counts(x.length, n, -(change as int));
    l.length := Wrap(l.length + change);
    x.length := Wrap(x.length - change);
  }

  /** How many items there are from `first` up to `last`. */
  method CountSegment(xlist: List, first: Item, last: Item, ghost i: nat, ghost j: nat) returns (change: nat)
    requires xlist.WellLinked() && i <= j <= |xlist.items| && first == xlist.At(i) && last == xlist.At(j)
    ensures change == j - i
  {
    change := 0;
    var tmp := first;
    while tmp != last
      invariant i + change <= j && tmp == xlist.At(i + change)
      decreases j - i - change
    {
      Neighbours(xlist, i + change + 1);
      tmp := tmp.next;
      change := change + 1;
    }
    if i + change != j { PositionsDiffer(xlist, i + change, j); }
  }

  /** The links run from `s` through `q` and back. */
  ghost predicate IsRing(s: Item, q: seq<Item>)
    reads s, q
  {
    Chain([s] + q + [s])
  }

  /** Links that lead from `s` into a set of other items and never out of it come back to `s` through no items. */
  lemma {:induction false} Trapped(s: Item, trap: set<Item>, w: seq<Item>, i: nat)
    requires s !in trap && s.next in trap && forall x :: x in trap ==> x.next in trap
    requires 0 < i < |w| && w[0] == s && Chain(w)
    ensures w[i] in trap
  {
    assert Linked(w[i - 1], w[i]);
    if i > 1 { Trapped(s, trap, w, i - 1); }
  }

  /** A ring whose links lead, behind its `k`-th node, to `t`, which leads nowhere else: it is a ring no more. */
  lemma Diverted(before: Links, s: Item, items: seq<Item>, k: nat, t: Item, q: seq<Item>)
    requires WasRing(before, s, items) && k <= |items| && t != s
    requires var r := [s] + items;
      r[k].next == t && forall i :: 0 <= i < k ==> r[i] in before && r[i].next == before[r[i]].0
    requires t in items[..k] || t.next == t
    ensures !IsRing(s, q)
  {
    DivertedTrap(before, s, items, k, t);
    var w := [s] + q + [s];
    if Chain(w) { Trapped(s, ItemsOf(items[..k]) + {t}, w, |w| - 1); }
  }

  lemma RingApart(s: Item, items: seq<Item>)
    requires Distinct([s] + items)
    ensures s !in items
  {
    var r := [s] + items;
    forall i | 0 <= i < |items| ensures items[i] != s { assert r[0] != r[i + 1]; }
  }

  lemma WasNext(before: Links, s: Item, items: seq<Item>, i: nat)
    requires WasRing(before, s, items) && i < |items|
    ensures var r := [s] + items; r[i] in before && before[r[i]].0 == items[i]
  {
    var r, w := [s] + items, [s] + items + [s];
    assert r[i] == w[i] && w[i + 1] == items[i];
  }

  lemma DivertedTrap(before: Links, s: Item, items: seq<Item>, k: nat, t: Item)
    requires WasRing(before, s, items) && k <= |items| && t != s
    requires var r := [s] + items;
      r[k].next == t && forall i :: 0 <= i < k ==> r[i] in before && r[i].next == before[r[i]].0
    requires t in items[..k] || t.next == t
    ensures var trap := ItemsOf(items[..k]) + {t};
      s !in trap && s.next in trap && forall x :: x in trap ==> x.next in trap
  {
    var r, trap := [s] + items, ItemsOf(items[..k]) + {t};
    RingApart(s, items);
    forall i | 0 <= i < k ensures r[i].next == items[i] { WasNext(before, s, items, i); }
    assert r[0] == s;
    forall x | x in items[..k] ensures x.next in trap {
      var i :| 0 <= i < k && items[i] == x;
      assert x == r[i + 1];
    }
  }

  /** A join that breaks the rings: of a list without items but with a length, or of a list with itself before its
      first item. */
  ghost predicate Breaks(thislist: List, xlist: List, k: nat)
    reads thislist`items, xlist`items, xlist`length
  {
    xlist.length != 0 && if thislist == xlist then k == 0 && xlist.items != [] else xlist.items == []
  }

  /** A join of a list with itself before one of its other items, which loses them all. */
  ghost predicate Loses(thislist: List, xlist: List, k: nat)
    reads thislist`items, xlist`items, xlist`length
  {
    thislist == xlist && xlist.length != 0 && 0 < k < |xlist.items|
  }

  /** `ww_list_join`: move all of `xlist` before `pos` of `thislist`. What it does hangs on the length of `xlist`,
      not on its items. When it breaks the rings, no items at all make either of them one. */
  method Join(thislist: List, pos: Item, xlist: List, ghost k: nat)
    requires thislist.WellLinked() && xlist.WellLinked()
    requires thislist != xlist ==> thislist.Nodes() !! xlist.Nodes()
    requires k <= |thislist.items| && pos == thislist.At(k)
    modifies thislist, xlist, thislist.Nodes(), xlist.Nodes()
    ensures !old(Breaks(thislist, xlist, k)) ==> thislist.WellLinked() && xlist.WellLinked()
    ensures old(Breaks(thislist, xlist, k)) ==>
      forall q: seq<Item> :: !IsRing(thislist.sentinel, q) && !IsRing(xlist.sentinel, q)
    ensures thislist == xlist && !old(Breaks(thislist, xlist, k)) ==>
      thislist.items == if old(Loses(thislist, xlist, k)) then [] else old(thislist.items)
    ensures old(Loses(thislist, xlist, k)) ==> var lost := old(thislist.items);
      IsRing(lost[0], lost[1..k]) && IsRing(lost[k], lost[k + 1..])
    ensures thislist == xlist ==> thislist.length == 0
    ensures thislist != xlist ==>
      thislist.length == Wrap(old(thislist.length) + old(xlist.length)) && xlist.length == 0
    ensures thislist != xlist && !old(Breaks(thislist, xlist, k)) ==>
      && thislist.Nodes() !! xlist.Nodes()
      && thislist.Nodes() + xlist.Nodes() == old(thislist.Nodes() + xlist.Nodes())
      && thislist.items == old(thislist.items)[..k]
         + (if old(xlist.length) != 0 then old(xlist.items) else []) + old(thislist.items)[k..]
      && xlist.items == (if old(xlist.length) != 0 then [] else old(xlist.items))
    ensures old(thislist.Valid() && xlist.Valid()) && thislist != xlist ==> thislist.Valid() && xlist.Valid()
  {
    JoinedLength(thislist.length, xlist.length, |thislist.items|, |xlist.items|);
    if 0 != xlist.length {
      TransferAll(thislist, pos, xlist, k);
      thislist.length := Wrap(thislist.length + xlist.length);
      xlist.length := 0;
    } else {
      assert thislist.items == thislist.items[..k] + [] + thislist.items[k..];
    }
  }

  /** The transfer of a join. Its cases differ in what comes of it, not in what is done. */
  method TransferAll(thislist: List, pos: Item, xlist: List, ghost k: nat)
    requires thislist.WellLinked() && xlist.WellLinked() && xlist.length != 0
    requires thislist != xlist ==> thislist.Nodes() !! xlist.Nodes()
    requires k <= |thislist.items| && pos == thislist.At(k)
    modifies thislist`items, xlist`items, thislist.Nodes(), xlist.Nodes()
    ensures !old(Breaks(thislist, xlist, k)) ==> thislist.WellLinked() && xlist.WellLinked()
    ensures old(Breaks(thislist, xlist, k)) ==>
      forall q: seq<Item> :: !IsRing(thislist.sentinel, q) && !IsRing(xlist.sentinel, q)
    ensures thislist == xlist && !old(Breaks(thislist, xlist, k)) ==>
      thislist.items == if old(Loses(thislist, xlist, k)) then [] else old(thislist.items)
    ensures old(Loses(thislist, xlist, k)) ==> var lost := old(thislist.items);
      IsRing(lost[0], lost[1..k]) && IsRing(lost[k], lost[k + 1..])
    ensures thislist != xlist && !old(Breaks(thislist, xlist, k)) ==>
      && thislist.Nodes() !! xlist.Nodes()
      && thislist.Nodes() + xlist.Nodes() == old(thislist.Nodes() + xlist.Nodes())
      && thislist.items == old(thislist.items)[..k] + old(xlist.items) + old(thislist.items)[k..]
      && xlist.items == []
  {
    Neighbours(xlist, 0);
    ghost var n := |xlist.items|;
    if n > 0 { PositionsDiffer(xlist, 0, n); }
    var first, end := xlist.sentinel.next, xlist.sentinel;
    if first == end {
      TransferNothing(thislist, pos, xlist, k);
    } else if thislist != xlist {
      TransferBetween(thislist, pos, xlist, first, end, 0, n, k);
    } else {
      TransferSelf(thislist, pos, first, end, k);
    }
  }

  /** The same within one list that has items. */
  method TransferSelf(l: List, pos: Item, first: Item, end: Item, ghost k: nat)
    requires l.WellLinked() && l.items != [] && k <= |l.items|
    requires pos == l.At(k) && first == l.At(0) && end == l.sentinel
    modifies l`items, l.Nodes()
    ensures k != 0 ==> l.WellLinked()
    ensures k == 0 ==> forall q: seq<Item> :: !IsRing(l.sentinel, q)
    ensures k != 0 ==> l.items == if k < old(|l.items|) then [] else old(l.items)
    ensures 0 < k < old(|l.items|) ==> var lost := old(l.items);
      IsRing(lost[0], lost[1..k]) && IsRing(lost[k], lost[k + 1..])
  {
    ghost var n := |l.items|;
    if k < n { PositionsDiffer(l, k, n); }
    if 0 < k { PositionsDiffer(l, k, 0); }
    if pos == end {
      TransferWithin(l, pos, first, end, 0, n, n);
    } else if pos == first {
      TransferBeforeFirst(l, pos, end);
    } else {
      TransferInside(l, pos, first, end, k);
    }
  }

  /** A list without items: before its own sentinel nothing happens, but into another list the sentinel itself is
      linked in, and links to itself. */
  method TransferNothing(thislist: List, pos: Item, xlist: List, ghost k: nat)
    requires thislist.WellLinked() && xlist.WellLinked() && xlist.items == []
    requires thislist != xlist ==> thislist.Nodes() !! xlist.Nodes()
    requires k <= |thislist.items| && pos == thislist.At(k)
    modifies thislist.Nodes(), xlist.Nodes()
    ensures thislist == xlist ==> thislist.WellLinked()
    ensures thislist != xlist ==>
      forall q: seq<Item> :: !IsRing(thislist.sentinel, q) && !IsRing(xlist.sentinel, q)
  {
    Neighbours(xlist, 0);
    Neighbours(thislist, k);
    ghost var s1, s2, items, before := thislist.sentinel, xlist.sentinel, thislist.items, LinksOf(thislist.Nodes());
    ghost var r := [s1] + items;
    ChainNow(before, thislist.Walk());
    assert Pred(thislist, k) == r[k];
    Transfer(pos, xlist.sentinel, xlist.sentinel);
    if thislist != xlist {
      forall i | 0 <= i < k ensures r[i].next == before[r[i]].0 { assert r[i] != r[k] && r[i] in before; }
      forall q: seq<Item> ensures !IsRing(s1, q) && !IsRing(s2, q) {
        Diverted(before, s1, items, k, s2, q);
        var w := [s2] + q + [s2];
        assert w[0] == s2 && !Linked(w[0], w[1]);
      }
    }
  }

  /** With `pos` the first item, the last one leads back to it and not to the sentinel. */
  method TransferBeforeFirst(l: List, first: Item, end: Item)
    requires l.WellLinked() && l.items != [] && first == l.items[0] && end == l.sentinel
    modifies l.Nodes()
    ensures forall q: seq<Item> :: !IsRing(l.sentinel, q)
  {
    ghost var n, items, s, before := |l.items|, l.items, l.sentinel, LinksOf(l.Nodes());
    ghost var r := [s] + items;
    ChainNow(before, l.Walk());
    Neighbours(l, 0);
    Neighbours(l, n);
    PositionsDiffer(l, 0, n);
    assert r[n] == Pred(l, n) && r[0] == s && l.Walk()[1] == first;
    Transfer(first, first, end);
    forall i | 0 <= i < n ensures r[i].next == before[r[i]].0 { assert r[i] != r[n] && r[i] in before; }
    forall q: seq<Item> ensures !IsRing(s, q) {
      Diverted(before, s, items, n, first, q);
    }
  }

  /** With `pos` another item, the sentinel is left alone, and the items form two rings without one. */
  method TransferInside(l: List, pos: Item, first: Item, end: Item, ghost k: nat)
    requires l.WellLinked() && 0 < k < |l.items| && pos == l.At(k) && first == l.At(0) && end == l.sentinel
    modifies l`items, l.Nodes()
    ensures l.WellLinked() && l.items == []
    ensures var lost := old(l.items); IsRing(lost[0], lost[1..k]) && IsRing(lost[k], lost[k + 1..])
  {
    ghost var items, before := l.items, LinksOf(l.Nodes());
    ChainNow(before, l.Walk());
    MoveLinksInside(l, pos, first, end, k, before);
    LostRings(before, l.sentinel, items, k);
    EmptyRing(l);
  }

  lemma EmptyRing(l: List)
    requires l.items == [] && Linked(l.sentinel, l.sentinel)
    ensures l.WellLinked()
  {
    assert l.Walk() == [l.sentinel, l.sentinel];
  }

  method MoveLinksInside(l: List, pos: Item, first: Item, end: Item, ghost k: nat, ghost before: Links)
    requires l.WellLinked() && 0 < k < |l.items| && pos == l.At(k) && first == l.At(0) && end == l.sentinel
    requires before == LinksOf(l.Nodes())
    modifies l`items, l.Nodes()
    ensures l.items == [] && Linked(end, end)
    ensures var items, n := old(l.items), |old(l.items)|;
      && RelinkedOnly(before, {items[n - 1], items[k - 1], end}, {items[k], items[0], end})
      && Linked(items[k - 1], items[0]) && Linked(items[n - 1], items[k])
  {
    ghost var n := |l.items|;
    Neighbours(l, k);
    Neighbours(l, 0);
    Neighbours(l, n);
    PositionsDiffer(l, k, n);
    PositionsDiffer(l, 0, n);
    PositionsDiffer(l, 0, k);
    l.items := [];
    Transfer(pos, first, end);
  }

  /** A stretch whose inner links are untouched and whose last item links to its first is a ring of its own. */
  lemma StretchIsRing(before: Links, tails: set<Item>, heads: set<Item>, w: seq<Item>, part: seq<Item>, from: nat)
    requires ChainIn(before, w) && RelinkedOnly(before, tails, heads) && part != []
    requires from + |part| <= |w| && part == w[from..from + |part|] && Untouched(part, tails, heads)
    requires Linked(Last(part), part[0])
    ensures IsRing(part[0], part[1..])
  {
    ChainKept(before, tails, heads, w, part, from);
    ChainJoin(part, [part[0]]);
    assert part + [part[0]] == [part[0]] + part[1..] + [part[0]];
  }

  lemma StretchesUntouched(s: Item, items: seq<Item>, k: nat)
    requires Distinct([s] + items) && 0 < k < |items|
    ensures var tails, heads := {items[|items| - 1], items[k - 1], s}, {items[k], items[0], s};
      Untouched(items[..k], tails, heads) && Untouched(items[k..], tails, heads)
  {
    var r := [s] + items;
    forall i, j | 0 <= i < j < |items| ensures items[i] != items[j] { assert r[i + 1] != r[j + 1]; }
    forall i | 0 <= i < |items| ensures items[i] != s { assert r[0] != r[i + 1]; }
  }

  lemma LostRings(before: Links, s: Item, items: seq<Item>, k: nat)
    requires WasRing(before, s, items) && 0 < k < |items|
    requires RelinkedOnly(before, {items[|items| - 1], items[k - 1], s}, {items[k], items[0], s})
    requires Linked(items[k - 1], items[0]) && Linked(items[|items| - 1], items[k])
    ensures IsRing(items[0], items[1..k]) && IsRing(items[k], items[k + 1..])
  {
    var w, x, y := [s] + items + [s], items[..k], items[k..];
    var tails, heads := {items[|items| - 1], items[k - 1], s}, {items[k], items[0], s};
    StretchesUntouched(s, items, k);
    assert x == w[1..1 + |x|] && y == w[1 + k..1 + k + |y|];
    assert x[1..] == items[1..k] && y[1..] == items[k + 1..];
    StretchIsRing(before, tails, heads, w, x, 1);
    StretchIsRing(before, tails, heads, w, y, 1 + k);
  }

  // ------------------------------------------------------------------------
  // Single items
  // ------------------------------------------------------------------------

  ghost function Inserted<T>(items: seq<T>, k: nat, x: T): seq<T>
    requires k <= |items|
  {
    items[..k] + [x] + items[k..]
  }

  lemma InsertLinks(before: Links, s: Item, items: seq<Item>, k: nat, x: Item)
    requires WasRing(before, s, items) && k <= |items| && x !in [s] + items
    requires RelinkedOnly(before, {PredIn(s, items, k)}, {AtIn(s, items, k)})
    requires Linked(PredIn(s, items, k), x) && Linked(x, AtIn(s, items, k))
    ensures Chain([s] + Inserted(items, k, x) + [s]) && Distinct([s] + Inserted(items, k, x))
  {
    var d := [s] + items;
    var h := if k < |items| then k + 1 else 0;
    SliceUntouched(d, 0, k + 1, (k, k, k), (h, h, h));
    EndUntouched(d, k + 1, |d|, 0, (k, k, k), (h, h, h));
    assert d[0..k + 1] == d[..k + 1] && d[k + 1..|d|] == d[k + 1..];
    assert At3(d, k, k, k) == {d[k]} && At3(d, h, h, h) == {d[h]};
    InsertSlices(s, items, k, x);
    ChainInsert(before, {d[k]}, {d[h]}, d[..k + 1], [x], d[k + 1..] + [s]);
    DistinctParts(d[..k + 1], d[k + 1..]);
    DistinctJoin(d[..k + 1], [x]);
    DistinctJoin(d[..k + 1] + [x], d[k + 1..]);
  }

  lemma InsertSlices<T>(s: T, items: seq<T>, k: nat, x: T)
    requires k <= |items|
    ensures var d := [s] + items;
      && d == d[..k + 1] + d[k + 1..]
      && [s] + items + [s] == d[..k + 1] + (d[k + 1..] + [s])
      && [s] + Inserted(items, k, x) == d[..k + 1] + [x] + d[k + 1..]
      && [s] + Inserted(items, k, x) + [s] == d[..k + 1] + [x] + (d[k + 1..] + [s])
  {
    var d := [s] + items;
    assert d[..k + 1] == [s] + items[..k] && d[k + 1..] == items[k..];
  }

  ghost function Removed<T>(items: seq<T>, k: nat): seq<T>
    requires k < |items|
  {
    items[..k] + items[k + 1..]
  }

  lemma RemoveLinks(before: Links, s: Item, items: seq<Item>, k: nat)
    requires WasRing(before, s, items) && k < |items|
    requires RelinkedOnly(before, {PredIn(s, items, k)}, {AtIn(s, items, k + 1)})
    requires Linked(PredIn(s, items, k), AtIn(s, items, k + 1))
    ensures Chain([s] + Removed(items, k) + [s]) && Distinct([s] + Removed(items, k))
  {
    var d := [s] + items;
    var h := if k + 1 < |items| then k + 2 else 0;
    SliceUntouched(d, 0, k + 1, (k, k, k), (h, h, h));
    SliceUntouched(d, k + 1, k + 2, (k, k, k), (h, h, h));
    EndUntouched(d, k + 2, |d|, 0, (k, k, k), (h, h, h));
    assert d[0..k + 1] == d[..k + 1] && d[k + 2..|d|] == d[k + 2..];
    assert At3(d, k, k, k) == {d[k]} && At3(d, h, h, h) == {d[h]};
    RemoveSlices(s, items, k);
    ChainCut(before, {d[k]}, {d[h]}, d[..k + 1], d[k + 1..k + 2], d[k + 2..] + [s]);
    DistinctParts(d[..k + 1], d[k + 1..k + 2] + d[k + 2..]);
    DistinctParts(d[k + 1..k + 2], d[k + 2..]);
    DistinctJoin(d[..k + 1], d[k + 2..]);
  }

  lemma RemoveSlices<T>(s: T, items: seq<T>, k: nat)
    requires k < |items|
    ensures var d := [s] + items;
      && d == d[..k + 1] + (d[k + 1..k + 2] + d[k + 2..])
      && [s] + items + [s] == d[..k + 1] + d[k + 1..k + 2] + (d[k + 2..] + [s])
      && [s] + Removed(items, k) == d[..k + 1] + d[k + 2..]
      && [s] + Removed(items, k) + [s] == d[..k + 1] + (d[k + 2..] + [s])
  {
    var d := [s] + items;
    assert d[..k + 1] == [s] + items[..k] && d[k + 2..] == items[k + 1..];
  }

  /** `ww_list_insert_pos`: link `item` in before `pos`. */
  method InsertPos(list: List, pos: Item, item: Item, ghost k: nat)
    requires list.WellLinked() && k <= |list.items| && pos == list.At(k) && item !in list.Nodes()
    modifies list, list.Nodes(), item
    ensures list.WellLinked() && list.items == Inserted(old(list.items), k, item)
    ensures list.length == Wrap(old(list.length) + 1)
  {
    ghost var before, items := LinksOf(list.Nodes()), list.items;
    Neighbours(list, k);
    ChainNow(before, list.Walk());
    item.next := pos;
    item.prev := pos.prev;
    pos.prev.next := item;
    pos.prev := item;
    list.length := Wrap(list.length + 1);
    InsertLinks(before, list.sentinel, items, k, item);
    list.items := Inserted(items, k, item);
  }

  /** `ww_list_append` */
  method Append(list: List, item: Item)
    requires list.WellLinked() && item !in list.Nodes()
    modifies list, list.Nodes(), item
    ensures list.WellLinked() && list.items == old(list.items) + [item]
    ensures list.length == Wrap(old(list.length) + 1)
  {
    ghost var before, items, k := LinksOf(list.Nodes()), list.items, |list.items|;
    var sentinel := list.sentinel;
    Neighbours(list, k);
    ChainNow(before, list.Walk());
    item.prev := sentinel.prev;
    sentinel.prev.next := item;
    item.next := sentinel;
    sentinel.prev := item;
    list.length := Wrap(list.length + 1);
    InsertLinks(before, list.sentinel, items, k, item);
    list.items := Inserted(items, k, item);
  }

  /** `ww_list_prepend` */
  method PrependItem(list: List, item: Item)
    requires list.WellLinked() && item !in list.Nodes()
    modifies list, list.Nodes(), item
    ensures list.WellLinked() && list.items == [item] + old(list.items)
    ensures list.length == Wrap(old(list.length) + 1)
  {
    ghost var before, items := LinksOf(list.Nodes()), list.items;
    var sentinel := list.sentinel;
    Neighbours(list, 0);
    ChainNow(before, list.Walk());
    item.next := sentinel.next;
    item.prev := sentinel;
    sentinel.next.prev := item;
    sentinel.next := item;
    list.length := Wrap(list.length + 1);
    InsertLinks(before, list.sentinel, items, 0, item);
    list.items := Inserted(items, 0, item);
  }

  /** `ww_list_remove_item`: returns the item before the removed one. */
  method RemoveItem(list: List, item: Item, ghost k: nat) returns (prev: Item?)
    requires list.WellLinked() && k < |list.items| && item == list.items[k]
    modifies list, list.Nodes()
    ensures list.WellLinked() && list.items == Removed(old(list.items), k)
    ensures list.length == Wrap(old(list.length) - 1)
    ensures prev == PredIn(list.sentinel, old(list.items), k)
  {
    ghost var before, items := LinksOf(list.Nodes()), list.items;
    Neighbours(list, k);
    Neighbours(list, k + 1);
    ChainNow(before, list.Walk());
    item.prev.next := item.next;
    item.next.prev := item.prev;
    list.length := Wrap(list.length - 1);
    prev := item.prev;
    RemoveLinks(before, list.sentinel, items, k);
    list.items := Removed(items, k);
  }

  /** Removing at one end: the ring of the sentinel alone stays as it is. */
  lemma FinishEnd(before: Links, s: Item, items: seq<Item>, k: nat)
    requires WasRing(before, s, items) && (items != [] ==> k < |items|)
    requires items == [] ==> Linked(s, s)
    requires items != [] ==> RelinkedOnly(before, {PredIn(s, items, k)}, {AtIn(s, items, k + 1)})
    requires items != [] ==> Linked(PredIn(s, items, k), AtIn(s, items, k + 1))
    ensures items == [] ==> Chain([s] + [] + [s])
    ensures items != [] ==> Chain([s] + Removed(items, k) + [s]) && Distinct([s] + Removed(items, k))
  {
    if items != [] {
      RemoveLinks(before, s, items, k);
    } else {
      assert [s] + [] + [s] == [s, s];
    }
  }

  /** `ww_list_remove_first`, on any well linked list: at length zero it does nothing. The sentinel comes back as
      an item exactly when there are no items although the length says so. */
  method RemoveFirst(list: List) returns (item: Item?)
    requires list.WellLinked()
    modifies list, list.Nodes()
    ensures list.WellLinked()
    ensures old(list.length) == 0 ==> item == null && list.items == old(list.items) && list.length == 0
    ensures old(list.length) != 0 ==> item != null && list.length == old(list.length) - 1
    ensures old(list.length) != 0 && old(list.items) != [] ==>
      item == old(list.items)[0] && list.items == old(list.items)[1..]
    ensures item == list.sentinel <==> old(list.length) != 0 && old(list.items) == []
    ensures old(list.items) == [] ==> list.items == []
    ensures old(list.Valid()) ==> list.Valid()
  {
    if 0 == list.length {
      return null;
    }
    ghost var before, items := LinksOf(list.Nodes()), list.items;
    ChainNow(before, list.Walk());
    Neighbours(list, 0);
    if items != [] {
      Neighbours(list, 1);
      PositionsDiffer(list, 0, |items|);
    }
    list.length := list.length - 1;
    Counts(old(list.length), |items|, -1);
    var first := list.sentinel.next;
    first.next.prev := first.prev;
    list.sentinel.next := first.next;
    FinishEnd(before, list.sentinel, items, 0);
    list.items := if items == [] then [] else Removed(items, 0);
    return first;
  }

  /** `ww_list_remove_last`, with the same exact condition. */
  method RemoveLast(list: List) returns (item: Item?)
    requires list.WellLinked()
    modifies list, list.Nodes()
    ensures list.WellLinked()
    ensures old(list.length) == 0 ==> item == null && list.items == old(list.items) && list.length == 0
    ensures old(list.length) != 0 ==> item != null && list.length == old(list.length) - 1
    ensures old(list.length) != 0 && old(list.items) != [] ==>
      item == Last(old(list.items)) && list.items == old(list.items)[..|old(list.items)| - 1]
    ensures item == list.sentinel <==> old(list.length) != 0 && old(list.items) == []
    ensures old(list.items) == [] ==> list.items == []
    ensures old(list.Valid()) ==> list.Valid()
  {
    if 0 == list.length {
      return null;
    }
    ghost var before, items := LinksOf(list.Nodes()), list.items;
    ghost var k := if items == [] then 0 else |items| - 1;
    ChainNow(before, list.Walk());
    Neighbours(list, k);
    if items != [] {
      Neighbours(list, k + 1);
      PositionsDiffer(list, k, |items|);
    }
    list.length := list.length - 1;
    Counts(old(list.length), |items|, -1);
    var last := list.sentinel.prev;
    last.prev.next := last.next;
    list.sentinel.prev := last.prev;
    FinishEnd(before, list.sentinel, items, k);
    list.items := if items == [] then [] else Removed(items, k);
    return last;
  }

  /** An index taken round a ring of `n` items and the sentinel. */
  function Wrapped(n: nat, idx: nat): (k: nat)
    ensures k <= n
  {
    if idx <= n then idx else Wrapped(n, idx - (n + 1))
  }

  /** That is the remainder by the length of the ring. */
  lemma {:induction false} WrappedIsMod(n: nat, idx: nat)
    ensures Wrapped(n, idx) == idx % (n + 1)
  {
    if idx <= n {
      Wrapping.DivModUnique(idx, n + 1, 0, idx);
    } else {
      WrappedIsMod(n, idx - (n + 1));
      var q := (idx - (n + 1)) / (n + 1);
      Wrapping.TimesOneMore(q, n + 1);
      Wrapping.DivModUnique(idx, n + 1, q + 1, Wrapped(n, idx));
    }
  }

  lemma {:induction false} WrapStep(n: nat, i: nat)
    ensures Wrapped(n, i + 1) == if Wrapped(n, i) == n then 0 else Wrapped(n, i) + 1
  {
    if i > n { WrapStep(n, i - (n + 1)); }
  }

  /** Where `ww_list_insert` puts an item among `n`: a negative index acts like index 1, and an index beyond the
      items, which only a wrong length lets through, goes on round the ring. */
  function InsertAt(n: nat, idx: int): (k: nat)
    ensures k <= n && (0 <= idx <= n ==> k == idx)
  {
    Wrapped(n, if idx < 0 then 1 else idx)
  }

  /** `ww_list_insert`. The links are always right; an item that goes to index 0 is counted twice. */
  method Insert(list: List, item: Item, idx: int) returns (ok: bool)
    requires list.WellLinked() && item !in list.Nodes()
    modifies list, list.Nodes(), item
    ensures list.WellLinked()
    ensures ok == (idx < Signed(old(list.length)))
    ensures list.items ==
      if ok then Inserted(old(list.items), InsertAt(|old(list.items)|, idx), item) else old(list.items)
    ensures list.length == Wrap(old(list.length) + (if !ok then 0 else if idx == 0 then 2 else 1))
    ensures old(list.Valid()) ==> (list.Valid() <==> !(ok && idx == 0))
  {
    if idx >= Signed(list.length) {
      Counts(list.length, |list.items|, 0);
      return false;
    }
    ghost var n := |list.items|;
    Counts(list.length, n, 1);
    Wrapping.WrapWrap(SIZE_MODULUS, list.length + 1, 1);
    Counts(list.length, n, 2);
    Wrapping.WrapTurn(SIZE_MODULUS, n + 1, n + 2);
    if 0 == idx {
      PrependItem(list, item);
    } else {
      LinkAfter(list, item, idx);
    }
    list.length := Wrap(list.length + 1);
    return true;
  }

  /** The item behind which `ww_list_insert` links the new one. */
  method ItemBefore(list: List, idx: int) returns (ptr: Item)
    requires list.WellLinked() && idx != 0
    ensures ptr == Pred(list, InsertAt(|list.items|, idx))
  {
    ghost var n := |list.items|;
    Neighbours(list, 0);
    ptr := list.sentinel.next;
    var i := 0;
    while i < idx - 1
      invariant 0 <= i && (idx > 0 ==> i <= idx - 1) && (idx < 0 ==> i == 0)
      invariant ptr == list.At(Wrapped(n, i))
    {
      WrapStep(n, i);
      Neighbours(list, Wrapped(n, i + 1));
      ptr := ptr.next;
      i := i + 1;
    }
    WrapStep(n, i);
  }

  /** Link the new item in behind that one; the length is left to the caller. */
  method LinkAfter(list: List, item: Item, idx: int)
    requires list.WellLinked() && item !in list.Nodes() && idx != 0
    modifies list`items, list.Nodes(), item
    ensures list.WellLinked()
    ensures list.items == Inserted(old(list.items), InsertAt(|old(list.items)|, idx), item)
  {
    ghost var before, items := LinksOf(list.Nodes()), list.items;
    ghost var k := InsertAt(|items|, idx);
    ChainNow(before, list.Walk());
    var ptr := ItemBefore(list, idx);
    Neighbours(list, k);
    var next := ptr.next;
    item.next := next;
    item.prev := ptr;
    next.prev := item;
    ptr.next := item;
    InsertLinks(before, list.sentinel, items, k, item);
    list.items := Inserted(items, k, item);
  }

  /** A list whose length says one but that has no items: one appended, one inserted at index 0, both removed. */
  method EmptyWithLength() returns (list: List)
    ensures fresh(list) && fresh(list.Nodes()) && list.WellLinked() && list.items == [] && list.length == 1
  {
    list := new List();
    var a := new Item();
    var b := new Item();
    Append(list, a);
    var ok := Insert(list, b, 0);
    var first := RemoveFirst(list);
    first := RemoveFirst(list);
  }

  /** One more removal returns the sentinel. */
  method DrainAfterInsert() returns (list: List, item: Item?)
    ensures item == list.sentinel
  {
    list := EmptyWithLength();
    item := RemoveFirst(list);
  }

  /** Joining it to a new list breaks both: no items make a ring of either any more. */
  method JoinAfterInsert() returns (list: List, xlist: List)
    ensures forall q: seq<Item> :: !IsRing(list.sentinel, q) && !IsRing(xlist.sentinel, q)
  {
    list := new List();
    xlist := EmptyWithLength();
    Join(list, list.sentinel, xlist, 0);
  }

  lemma SelfRing(x: Item)
    requires IsRing(x, [])
    ensures Linked(x, x)
  {
    var w := [x] + [] + [x];
    assert w[0] == x && w[1] == x && Linked(w[0], w[1]);
  }

  /** A list of two items joined with itself before the second is empty afterwards. */
  method JoinBeforeSecond() returns (list: List, a: Item, b: Item)
    ensures list.Valid() && list.items == [] && Linked(a, a) && Linked(b, b)
  {
    list := new List();
    a := new Item();
    b := new Item();
    Append(list, a);
    Append(list, b);
    ghost var lost := list.items;
    assert lost == [a, b] && lost[1..1] == [] && lost[2..] == [];
    Join(list, b, list, 1);
    SelfRing(a);
    SelfRing(b);
  }

  /** Joined before the first, it is no ring any more. */
  method JoinBeforeFirst() returns (list: List)
    ensures forall q: seq<Item> :: !IsRing(list.sentinel, q)
  {
    list := new List();
    var a := new Item();
    Append(list, a);
    Join(list, a, list, 0);
  }

  /** After a join with itself and a removal a list's length is below zero, and no item goes to index 0. */
  method RefusedAtFront() returns (list: List, ok: bool)
    ensures list.WellLinked() && list.items == [] && !ok
  {
    list := new List();
    var a := new Item();
    var b := new Item();
    Append(list, a);
    Join(list, list.sentinel, list, 1);
    var prev := RemoveItem(list, a, 0);
    assert Removed([a], 0) == [] && list.length == Wrap(-1) == SIZE_MODULUS - 1;
    ok := Insert(list, b, 0);
  }

  /** A list of one item joined with itself has the item and the length zero. */
  method SelfJoin() returns (list: List, item: Item)
    ensures list.WellLinked() && list.items == [item] && list.length == 0
  {
    list := new List();
    item := new Item();
    Append(list, item);
    Join(list, list.sentinel, list, 1);
  }

  /** An item inserted at index -1 is the second one. */
  method NegativeIndex() returns (list: List, a: Item, b: Item, c: Item)
    ensures list.Valid() && list.items == [a, c, b]
  {
    list := new List();
    a := new Item();
    b := new Item();
    c := new Item();
    Append(list, a);
    Append(list, b);
    var ok := Insert(list, c, -1);
  }
}
