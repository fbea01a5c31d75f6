/** Open-addressing hash table with linear probing (src/class/ww_hash_table.c).
    One generic model, parametric in the key type and in the hash of a key. */
module HashTable {
  import opened Wrappers
  import Sets

  /** One element of `ht_table`: its `valid` flag, with key and value when set. */
  datatype Slot<K, V> = Free | Used(key: K, value: V)

  // ------------------------------------------------------------------------
  // Probe paths
  // ------------------------------------------------------------------------

  /** The slot where the probe for key `k` starts in a table of `n` slots. */
  function Ideal<K>(hash: K -> nat, k: K, n: nat): (i: nat)
    requires 0 < n
    ensures i < n
  {
    hash(k) % n
  }

  /** Slot `q` is met strictly before slot `p` by a probe that starts at `h`. */
  predicate OnPath(h: nat, q: nat, p: nat) {
    if h <= p then h <= q < p else h <= q || q < p
  }

  /** The slot after `i`, wrapping at the end of the table. */
  function Next(i: nat, n: nat): nat {
    if i + 1 == n then 0 else i + 1
  }

  /** Number of probe steps from slot `i` to slot `j`. */
  function Dist(i: nat, j: nat, n: nat): nat
    requires i < n && j < n
  {
    if i <= j then j - i else n - i + j
  }

  /** Slot `q` is on the probe path of the entry stored in slot `p`. */
  predicate Before<K, V>(hash: K -> nat, t: seq<Slot<K, V>>, q: nat, p: nat)
    requires p < |t| && t[p].Used?
  {
    OnPath(Ideal(hash, t[p].key, |t|), q, p)
  }

  /** The key invariant: no probe path of a stored entry has a gap. */
  ghost predicate PathsFull<K, V>(hash: K -> nat, t: seq<Slot<K, V>>) {
    forall p, q :: 0 <= p < |t| && 0 <= q < |t| && t[p].Used? && Before(hash, t, q, p) ==> t[q].Used?
  }

  ghost predicate Unique<K, V>(t: seq<Slot<K, V>>) {
    forall p, q :: 0 <= p < |t| && 0 <= q < |t| && t[p].Used? && t[q].Used? && t[p].key == t[q].key ==> p == q
  }

  ghost predicate Holds<K, V>(t: seq<Slot<K, V>>, k: K) {
    exists p :: 0 <= p < |t| && t[p].Used? && t[p].key == k
  }

  /** The table stores exactly the bindings of `m`, each in one slot. */
  ghost predicate Represents<K, V>(t: seq<Slot<K, V>>, m: map<K, V>) {
    && Unique(t)
    && (forall p :: 0 <= p < |t| && t[p].Used? ==> t[p].key in m && m[t[p].key] == t[p].value)
    && (forall k :: k in m ==> Holds(t, k))
  }

  ghost function KeysOf<K, V>(t: seq<Slot<K, V>>): (s: set<K>) {
    set p | 0 <= p < |t| && t[p].Used? :: t[p].key
  }

  lemma {:induction false} FullTableKeys<K, V>(t: seq<Slot<K, V>>)
    requires Unique(t)
    requires forall p :: 0 <= p < |t| ==> t[p].Used?
    ensures |KeysOf(t)| == |t|
  {
    if |t| == 0 {
      assert KeysOf(t) == {};
    } else {
      var front, last := t[..|t| - 1], t[|t| - 1];
      assert forall p :: 0 <= p < |front| ==> front[p] == t[p];
      FullTableKeys(front);
      assert last.key !in KeysOf(front);
      assert KeysOf(t) == KeysOf(front) + {last.key} by {
        forall k | k in KeysOf(front) + {last.key} ensures k in KeysOf(t) {
          if k == last.key {
            assert t[|t| - 1].key == k;
          } else {
            var p :| 0 <= p < |front| && front[p].Used? && front[p].key == k;
            assert t[p].key == k;
          }
        }
        forall k | k in KeysOf(t) ensures k in KeysOf(front) + {last.key} {
          var p :| 0 <= p < |t| && t[p].Used? && t[p].key == k;
          if p < |front| { assert front[p].key == k; }
        }
      }
    }
  }

  /** A table with fewer entries than slots has a free slot: every probe loop ends. */
  lemma FreeSlotExists<K, V>(t: seq<Slot<K, V>>, m: map<K, V>) returns (f: nat)
    requires Represents(t, m) && |m| < |t|
    ensures f < |t| && t[f].Free?
  {
    assert KeysOf(t) <= m.Keys && |m.Keys| == |m|;
    Sets.SubsetSize(KeysOf(t), m.Keys);
    if forall p :: 0 <= p < |t| ==> t[p].Used? {
      FullTableKeys(t);
    }
    f :| 0 <= f < |t| && t[f].Free?;
  }

  /** A probe that reaches a free slot without meeting the key proves the key absent. */
  lemma ProbeMiss<K, V>(hash: K -> nat, t: seq<Slot<K, V>>, k: K, w: nat)
    requires PathsFull(hash, t) && w < |t| && t[w].Free?
    requires forall q :: 0 <= q < |t| && OnPath(Ideal(hash, k, |t|), q, w) ==> t[q].Used? && t[q].key != k
    ensures !Holds(t, k)
  {
    forall p | 0 <= p < |t| && t[p].Used? ensures t[p].key != k {
      assert !Before(hash, t, w, p);
    }
  }

  /** Filling the free slot at the end of a key's probe keeps the invariant. */
  lemma InsertKeeps<K, V>(hash: K -> nat, t: seq<Slot<K, V>>, m: map<K, V>, w: nat, k: K, v: V)
    requires PathsFull(hash, t) && Represents(t, m) && w < |t| && t[w].Free?
    requires forall q :: 0 <= q < |t| && OnPath(Ideal(hash, k, |t|), q, w) ==> t[q].Used?
    requires k !in m
    ensures PathsFull(hash, t[w := Used(k, v)])
    ensures Represents(t[w := Used(k, v)], m[k := v])
  {
    var t' := t[w := Used(k, v)];
    forall p, q | 0 <= p < |t'| && 0 <= q < |t'| && t'[p].Used? && Before(hash, t', q, p) ensures t'[q].Used? {
      if p != w { assert Before(hash, t, q, p); }
    }
    forall x | x in m[k := v] ensures Holds(t', x) {
      if x == k { assert t'[w].key == x; }
      else {
        assert Holds(t, x);
        var p :| 0 <= p < |t| && t[p].Used? && t[p].key == x;
        assert t'[p] == t[p];
      }
    }
  }

  // ------------------------------------------------------------------------
  // Removal: one moving hole
  // ------------------------------------------------------------------------

  /** While the followers of a removed entry are re-placed, the only gap on any probe path is the
      hole `g`; the slots from the hole up to the scan position `w` hold entries whose own paths
      avoid the hole. */
  ghost predicate OneHole<K, V>(hash: K -> nat, t: seq<Slot<K, V>>, g: nat, w: nat) {
    && g < |t| && w < |t| && t[g].Free?
    && (forall p, q :: 0 <= p < |t| && 0 <= q < |t| && t[p].Used? && Before(hash, t, q, p) ==> t[q].Used? || q == g)
    && (forall p :: 0 <= p < |t| && OnPath(g, p, w) && p != g ==> t[p].Used? && !Before(hash, t, g, p))
  }

  /** The scan position `w` lies after the hole and not beyond the free slot `f` that will end it. */
  ghost predicate Scanning<K, V>(hash: K -> nat, t: seq<Slot<K, V>>, g: nat, w: nat, f: nat) {
    && OneHole(hash, t, g, w)
    && f < |t| && f != g && t[f].Free?
    && 0 < Dist(g, w, |t|) <= Dist(g, f, |t|)
  }

  /** Clearing a slot leaves it as the hole, with the scan at the next slot. */
  lemma ClearOpensHole<K, V>(hash: K -> nat, t: seq<Slot<K, V>>, g: nat, f: nat)
    requires PathsFull(hash, t) && g < |t| && f < |t| && f != g && t[f].Free?
    ensures Scanning(hash, t[g := Free], g, Next(g, |t|), f)
  {
    var t' := t[g := Free];
    forall p, q | 0 <= p < |t'| && 0 <= q < |t'| && t'[p].Used? && Before(hash, t', q, p)
      ensures t'[q].Used? || q == g
    {
      assert Before(hash, t, q, p);
    }
  }

  /** Moving the scanned entry into the hole makes its old slot the hole. */
  lemma MoveShiftsHole<K, V>(hash: K -> nat, t: seq<Slot<K, V>>, g: nat, w: nat, f: nat)
    requires Scanning(hash, t, g, w, f) && t[w].Used?
    requires Before(hash, t, g, w)
    requires forall q :: 0 <= q < |t| && OnPath(Ideal(hash, t[w].key, |t|), q, g) ==> t[q].Used?
    ensures Scanning(hash, t[g := t[w]][w := Free], w, Next(w, |t|), f)
  {
    var t' := t[g := t[w]][w := Free];
    forall p, q | 0 <= p < |t'| && 0 <= q < |t'| && t'[p].Used? && Before(hash, t', q, p)
      ensures t'[q].Used? || q == w
    {
      if p == g { assert t'[p] == t[w]; } else { assert Before(hash, t, q, p); }
    }
  }

  /** An entry whose probe meets no gap stays, and the scan moves on. */
  lemma StayKeepsHole<K, V>(hash: K -> nat, t: seq<Slot<K, V>>, g: nat, w: nat, f: nat)
    requires Scanning(hash, t, g, w, f) && t[w].Used?
    requires !Before(hash, t, g, w)
    ensures Scanning(hash, t, g, Next(w, |t|), f)
  {
  }

  /** A scan that stands at a used slot has not reached the free slot yet, so it comes closer. */
  lemma ScanAhead<K, V>(hash: K -> nat, t: seq<Slot<K, V>>, g: nat, w: nat, f: nat)
    requires Scanning(hash, t, g, w, f) && t[w].Used?
    ensures Dist(Next(w, |t|), f, |t|) < Dist(w, f, |t|)
  {
  }

  /** When the scan reaches a free slot, the hole breaks no path any more. */
  lemma HoleCloses<K, V>(hash: K -> nat, t: seq<Slot<K, V>>, g: nat, w: nat)
    requires OneHole(hash, t, g, w) && t[w].Free? && w != g
    ensures PathsFull(hash, t)
  {
    forall p, q | 0 <= p < |t| && 0 <= q < |t| && t[p].Used? && Before(hash, t, q, p) ensures t[q].Used? {
      assert !Before(hash, t, w, p);
    }
  }

  /** Clearing the slot of `k` removes exactly that binding. */
  lemma ClearRepresents<K, V>(t: seq<Slot<K, V>>, m: map<K, V>, g: nat)
    requires Represents(t, m) && g < |t| && t[g].Used?
    ensures Represents(t[g := Free], m - {t[g].key})
  {
    var t' := t[g := Free];
    forall x | x in m - {t[g].key} ensures Holds(t', x) {
      assert Holds(t, x);
      var p :| 0 <= p < |t| && t[p].Used? && t[p].key == x;
      assert t'[p] == t[p];
    }
  }

  lemma MoveRepresents<K, V>(t: seq<Slot<K, V>>, m: map<K, V>, g: nat, w: nat)
    requires Represents(t, m) && g < |t| && w < |t| && t[g].Free? && t[w].Used?
    ensures Represents(t[g := t[w]][w := Free], m)
  {
    var t' := t[g := t[w]][w := Free];
    forall x | x in m ensures Holds(t', x) {
      assert Holds(t, x);
      var p :| 0 <= p < |t| && t[p].Used? && t[p].key == x;
      if p == w { assert t'[g].key == x; } else { assert t'[p] == t[p]; }
    }
  }

  // ------------------------------------------------------------------------
  // Capacity
  // ------------------------------------------------------------------------

  function RoundCapacityUp(capacity: nat): (r: nat)
    ensures capacity < r <= capacity + 30
    ensures r % 30 == 1
  {
    (capacity + 29) / 30 * 30 + 1
  }

  /** `c * numer / denom` */
  function Scale(c: nat, numer: nat, denom: nat): nat
    requires 0 < denom
  {
    c * numer / denom
  }

  /** It is the largest number that is not above `c` times the fraction. */
  lemma ScaleExactly(c: nat, numer: nat, denom: nat)
    requires 0 < denom
    ensures var r := Scale(c, numer, denom); r * denom <= c * numer < (r + 1) * denom
  {
    DivFloor(c * numer, denom);
  }

  /** Growth by a factor of at least one gives a strictly larger capacity. */
  lemma GrowthIsStrict(capacity: nat, numer: nat, denom: nat)
    requires 0 < denom <= numer
    ensures capacity < RoundCapacityUp(Scale(capacity, numer, denom))
  {
    ScaleUp(capacity, numer, denom);
  }

  lemma ScaleOnce(n: nat, d: nat)
    requires 0 < n
    ensures d <= Scale(n, d, n)
  {
    assert d * n == n * d;
    DivBound(d, n * d, n);
  }

  /** A density above one puts the trigger of a large enough capacity above it. */
  lemma DenseTrigger(capacity: nat, numer: nat, denom: nat)
    requires 0 < denom < numer && denom <= capacity
    ensures capacity < Scale(capacity, numer, denom)
  {
    MulMonotone(capacity, denom + 1, numer);
    assert capacity * (denom + 1) == capacity * denom + capacity;
    assert (capacity + 1) * denom == capacity * denom + denom;
    DivBound(capacity + 1, capacity * numer, denom);
  }

  /** Every capacity has its trigger at or below it exactly for densities of at most one. */
  lemma DensityExactly(numer: nat, denom: nat)
    requires 0 < denom
    ensures (forall c: nat :: Scale(c, numer, denom) <= c) <==> numer <= denom
  {
    if numer <= denom {
      forall c: nat ensures Scale(c, numer, denom) <= c {
        if numer > 0 { ScaleDown(c, numer, denom); }
      }
    } else {
      DenseTrigger(denom, numer, denom);
      assert !(Scale(denom, numer, denom) <= denom);
    }
  }

  /** Growth raises every capacity exactly for factors of at least one. */
  lemma GrowthExactly(numer: nat, denom: nat)
    requires 0 < denom
    ensures (forall c: nat :: c < RoundCapacityUp(Scale(c, numer, denom))) <==> denom <= numer
  {
    if denom <= numer {
      forall c: nat ensures c < RoundCapacityUp(Scale(c, numer, denom)) {
        GrowthIsStrict(c, numer, denom);
      }
    } else {
      var c := 31 * denom;
      MulMonotone(c, numer, denom - 1);
      var q := Scale(c, numer, denom);
      DivFloor(c * numer, denom);
      assert c * (denom - 1) == (c - 31) * denom;
      MulCancel(q, c - 31, denom);
      assert !(c < RoundCapacityUp(q));
    }
  }

  lemma ScaleUp(c: nat, numer: nat, denom: nat)
    requires 0 < denom <= numer
    ensures c <= Scale(c, numer, denom)
  {
    MulMonotone(c, denom, numer);
    DivBound(c, c * numer, denom);
  }

  lemma ScaleDown(c: nat, numer: nat, denom: nat)
    requires 0 < numer <= denom
    ensures Scale(c, numer, denom) <= c
  {
    MulMonotone(c, numer, denom);
    var q := Scale(c, numer, denom);
    DivFloor(c * numer, denom);
    MulCancel(q, c, denom);
  }

  lemma MulMonotone(c: nat, a: nat, b: nat)
    requires a <= b
    ensures c * a <= c * b
  {
  }

  lemma MulCancel(a: nat, b: nat, d: nat)
    requires 0 < d && a * d <= b * d
    ensures a <= b
  {
    assert b < a ==> (b + 1) * d <= a * d;
  }

  lemma DivFloor(a: nat, d: nat)
    requires 0 < d
    ensures a / d * d <= a < (a / d + 1) * d
  {
  }

  lemma DivBound(q: nat, a: nat, d: nat)
    requires 0 < d && q * d <= a
    ensures q <= a / d
  {
    DivFloor(a, d);
    var r := a / d;
    assert r + 1 <= q ==> (r + 1) * d <= q * d;
  }

  // ------------------------------------------------------------------------
  // The table object
  // ------------------------------------------------------------------------

  /** First free slot on the probe of `k`: the loop with which growing places an entry. */
  method FirstFree<K, V>(hash: K -> nat, t: array<Slot<K, V>>, ghost m: map<K, V>, k: K) returns (ii: nat)
    requires Represents(t[..], m) && |m| < t.Length
    ensures ii < t.Length && t[ii].Free?
    ensures forall q :: 0 <= q < t.Length && OnPath(Ideal(hash, k, t.Length), q, ii) ==> t[q].Used?
    ensures t[hash(k) % t.Length].Free? ==> ii == hash(k) % t.Length
  {
    ghost var f := FreeSlotExists(t[..], m);
    var capacity := t.Length;
    ghost var h := Ideal(hash, k, capacity);
    ii := Ideal(hash, k, capacity);
    while true
      invariant ii <= capacity && t[f].Free?
      invariant var w := if ii == capacity then 0 else ii;
        && Dist(h, w, capacity) + Dist(w, f, capacity) == Dist(h, f, capacity)
        && forall q :: 0 <= q < capacity && OnPath(h, q, w) ==> t[q].Used?
      decreases Dist(if ii == capacity then 0 else ii, f, capacity)
    {
      if ii == capacity { ii := 0; }
      if t[ii].Free? {
        return;
      }
      ii := ii + 1;
    }
  }

  /** The inner loop of removal: first free slot on the probe of the entry in slot `ii`, or `ii` itself. */
  method FirstFreeBefore<K, V>(hash: K -> nat, t: array<Slot<K, V>>, ii: nat) returns (jj: nat)
    requires ii < t.Length && t[ii].Used?
    ensures jj < t.Length
    ensures jj == ii || (t[jj].Free? && OnPath(Ideal(hash, t[ii].key, t.Length), jj, ii))
    ensures forall q :: 0 <= q < t.Length && OnPath(Ideal(hash, t[ii].key, t.Length), q, jj) ==> t[q].Used?
  {
    var capacity := t.Length;
    ghost var h := Ideal(hash, t[ii].key, capacity);
    jj := Ideal(hash, t[ii].key, capacity);
    while true
      invariant jj <= capacity
      invariant var w := if jj == capacity then 0 else jj;
        && Dist(h, w, capacity) + Dist(w, ii, capacity) == Dist(h, ii, capacity)
        && forall q :: 0 <= q < capacity && OnPath(h, q, w) ==> t[q].Used?
      decreases Dist(if jj == capacity then 0 else jj, ii, capacity)
    {
      if jj == capacity { jj := 0; }
      if jj == ii || t[jj].Free? {
        return;
      }
      jj := jj + 1;
    }
  }

  lemma AppendRepresents<K, V>(t: seq<Slot<K, V>>, m: map<K, V>, j: nat)
    requires j < |t| && Unique(t) && Represents(t[..j], m)
    ensures t[j].Free? ==> Represents(t[..j + 1], m)
    ensures t[j].Used? ==> t[j].key !in m && Represents(t[..j + 1], m[t[j].key := t[j].value])
  {
    forall k | k in m ensures Holds(t[..j + 1], k) && (t[j].Used? ==> t[j].key != k) {
      assert Holds(t[..j], k);
      var p :| 0 <= p < j && t[..j][p].Used? && t[..j][p].key == k;
      assert t[..j + 1][p].key == k && t[p].key == k;
    }
    if t[j].Used? {
      assert t[..j + 1][j].key == t[j].key;
    }
  }

  /** While an entry is still to be moved, fewer entries than all have been. */
  lemma MovedSoFar<K, V>(t: seq<Slot<K, V>>, m: map<K, V>, moved: map<K, V>, j: nat)
    requires j < |t| && Represents(t, m) && Represents(t[..j], moved) && t[j].Used? && t[j].key !in moved
    ensures |moved| < |m|
  {
    forall k | k in moved ensures k in m {
      assert Holds(t[..j], k);
      var p :| 0 <= p < j && t[..j][p].Used? && t[..j][p].key == k;
      assert t[p].key == k;
    }
    Sets.SubsetSize(moved.Keys + {t[j].key}, m.Keys);
  }

  /** The map a table represents is determined by its slots. */
  lemma RepresentsOneMap<K, V>(t: seq<Slot<K, V>>, m: map<K, V>, m': map<K, V>)
    requires Represents(t, m) && Represents(t, m')
    ensures m == m'
  {
    assert forall k :: k in m || k in m' ==> Holds(t, k);
  }

  lemma ReplaceKeeps<K, V>(hash: K -> nat, t: seq<Slot<K, V>>, m: map<K, V>, w: nat, v: V)
    requires PathsFull(hash, t) && Represents(t, m) && w < |t| && t[w].Used?
    ensures PathsFull(hash, t[w := Used(t[w].key, v)])
    ensures Represents(t[w := Used(t[w].key, v)], m[t[w].key := v])
  {
    var t' := t[w := Used(t[w].key, v)];
    forall p, q | 0 <= p < |t'| && 0 <= q < |t'| && t'[p].Used? && Before(hash, t', q, p) ensures t'[q].Used? {
      assert Before(hash, t, q, p);
    }
    forall x | x in m[t[w].key := v] ensures Holds(t', x) {
      assert Holds(t, x);
      var p :| 0 <= p < |t| && t[p].Used? && t[p].key == x;
      assert t'[p].key == x;
    }
  }

  datatype Status = Success | NotFound | Error

  /** The density and growth factors of a table, as fractions. */
  datatype Factors = Factors(densityNumer: nat, densityDenom: nat, growthNumer: nat, growthDenom: nat) {

    /** None of the divisions is by zero. */
    predicate Divides() {
      0 < densityNumer && 0 < densityDenom && 0 < growthDenom
    }

    /** Density of at most one, growth of at least one. */
    predicate InRange() {
      Divides() && densityNumer <= densityDenom && GrowsStrictly()
    }

    /** Growth of at least one. */
    predicate GrowsStrictly() {
      0 < growthDenom <= growthNumer
    }

    function FirstCapacity(estimatedMaxSize: nat): nat
      requires Divides()
    {
      RoundCapacityUp(Scale(estimatedMaxSize, densityDenom, densityNumer))
    }

    function Trigger(capacity: nat): nat
      requires Divides()
    {
      Scale(capacity, densityNumer, densityDenom)
    }

    function NextCapacity(capacity: nat): nat
      requires Divides()
    {
      RoundCapacityUp(Scale(capacity, growthNumer, growthDenom))
    }
  }

  /** The factors of `ww_hash_table_init`: density 1/2, growth 2/1. */
  const DEFAULT_FACTORS := Factors(1, 2, 2, 1)

  /** The first capacity is the least that the density asks for, by at most 30 more; then the trigger is not below the
      estimate. */
  lemma FirstCapacityExactly(f: Factors, n: nat)
    requires f.Divides()
    ensures var c := f.FirstCapacity(n);
      n * f.densityDenom < c * f.densityNumer <= n * f.densityDenom + 30 * f.densityNumer
    ensures n <= f.Trigger(f.FirstCapacity(n))
  {
    var p, q := f.densityDenom, f.densityNumer;
    var e, c := Scale(n, p, q), f.FirstCapacity(n);
    ScaleExactly(n, p, q);
    MulMonotone(q, e + 1, c);
    MulMonotone(q, c, e + 30);
    assert c * q == q * c && (e + 1) * q == q * (e + 1) && q * (e + 30) == e * q + 30 * q;
    DivBound(n, c * q, p);
  }

  /** The next capacity is the last one times the growth factor, by at most 30 more. */
  lemma NextCapacityExactly(f: Factors, c: nat)
    requires f.Divides()
    ensures var d := f.NextCapacity(c);
      c * f.growthNumer < d * f.growthDenom <= c * f.growthNumer + 30 * f.growthDenom
  {
    var q := f.growthDenom;
    var e, d := Scale(c, f.growthNumer, q), f.NextCapacity(c);
    ScaleExactly(c, f.growthNumer, q);
    MulMonotone(q, e + 1, d);
    MulMonotone(q, d, e + 30);
    assert d * q == q * d && (e + 1) * q == q * (e + 1) && q * (e + 30) == e * q + 30 * q;
  }

  /** A table made for `n` entries takes the first `n - 1` without growing, and grows at the `n`-th exactly when its
      trigger is the estimate itself. */
  lemma EstimateSuffices<K, V>(f: Factors, n: nat, s: Load<K, V>, key: K)
    requires f.Divides() && s.capacity == f.FirstCapacity(n) && key !in s.contents && |s.contents| < n
    ensures |s.contents| + 1 < n ==> CapacityAfter(f, s, key) == s.capacity
    ensures |s.contents| + 1 == n && f.GrowsStrictly() ==>
      (CapacityAfter(f, s, key) == s.capacity <==> f.Trigger(s.capacity) != n)
  {
    FirstCapacityExactly(f, n);
    if f.GrowsStrictly() { GrowthIsStrict(s.capacity, f.growthNumer, f.growthDenom); }
  }

  /** The default table grows to a little more than twice its size when it is half full. */
  lemma DefaultFactors(c: nat)
    ensures DEFAULT_FACTORS.InRange()
    ensures 2 * DEFAULT_FACTORS.Trigger(c) <= c <= 2 * DEFAULT_FACTORS.Trigger(c) + 1
    ensures 2 * c < DEFAULT_FACTORS.NextCapacity(c) <= 2 * c + 30
    ensures 2 * c < DEFAULT_FACTORS.FirstCapacity(c) <= 2 * c + 30
  {
    ScaleExactly(c, 1, 2);
    NextCapacityExactly(DEFAULT_FACTORS, c);
    FirstCapacityExactly(DEFAULT_FACTORS, c);
  }

  /** What a table stores, and in how many slots. */
  datatype Load<K, V> = Load(contents: map<K, V>, capacity: nat)

  /** The capacity after a set: a new key that reaches the trigger makes the table grow. */
  function CapacityAfter<K, V>(f: Factors, s: Load<K, V>, key: K): nat
    requires f.Divides()
  {
    if key !in s.contents && |s.contents| + 1 >= f.Trigger(s.capacity) then f.NextCapacity(s.capacity) else s.capacity
  }

  /** The set of a new key would leave no free slot. */
  predicate FillsUp<K, V>(f: Factors, s: Load<K, V>, key: K)
    requires f.Divides()
  {
    key !in s.contents && |s.contents| + 1 >= CapacityAfter(f, s, key)
  }

  /** Factors in range never fill a table up. */
  lemma InRangeLeavesRoom<K, V>(f: Factors, s: Load<K, V>, key: K)
    requires f.InRange() && |s.contents| < s.capacity
    ensures !FillsUp(f, s, key)
  {
    if |s.contents| + 1 >= f.Trigger(s.capacity) {
      GrowthIsStrict(s.capacity, f.growthNumer, f.growthDenom);
    } else {
      ScaleDown(s.capacity, f.densityNumer, f.densityDenom);
    }
  }

  lemma {:induction false} KeysAtMost<K, V>(t: seq<Slot<K, V>>)
    ensures |KeysOf(t)| <= |t|
    ensures (exists p :: 0 <= p < |t| && t[p].Free?) ==> |KeysOf(t)| < |t|
  {
    if t == [] {
      assert KeysOf(t) == {};
    } else {
      var front, last := t[..|t| - 1], t[|t| - 1];
      KeysAtMost(front);
      var more := if last.Used? then {last.key} else {};
      assert t == front + [last];
      assert KeysOf(t) <= KeysOf(front) + more by {
        forall k | k in KeysOf(t) ensures k in KeysOf(front) + more {
          var p :| 0 <= p < |t| && t[p].Used? && t[p].key == k;
          if p < |front| { assert front[p].key == k; }
        }
      }
      Sets.SubsetSize(KeysOf(t), KeysOf(front) + more);
      if last.Used? {
        forall p | 0 <= p < |t| && t[p].Free? ensures front[p].Free? { }
      }
    }
  }

  /** As many bindings as slots use every slot. */
  lemma FullTable<K, V>(t: seq<Slot<K, V>>, m: map<K, V>)
    requires Represents(t, m) && |m| >= |t|
    ensures forall p :: 0 <= p < |t| ==> t[p].Used?
  {
    forall k | k in m ensures k in KeysOf(t) {
      assert Holds(t, k);
    }
    Sets.SubsetSize(m.Keys, KeysOf(t));
    KeysAtMost(t);
  }

  /** In a table without a free slot the probe for an absent key has nowhere to stop. */
  lemma FullTableTraps<K, V>(t: seq<Slot<K, V>>, m: map<K, V>, key: K)
    requires Represents(t, m) && |m| >= |t| && key !in m
    ensures forall p :: 0 <= p < |t| ==> t[p].Used? && t[p].key != key
  {
    FullTable(t, m);
  }

  /** A rehash into fewer slots than there are entries comes to an entry, with as many moved before it as there are
      slots: then no slot is left for it. */
  lemma {:induction false} RehashGetsStuck<K, V>(t: seq<Slot<K, V>>, m: map<K, V>, i: nat, capacity: nat,
                                                 all: map<K, V>)
      returns (j: nat, moved: map<K, V>)
    requires Represents(t, all) && capacity < |all| && i <= |t| && Represents(t[..i], m) && |m| <= capacity
    ensures j < |t| && t[j].Used? && Represents(t[..j], moved) && t[j].key !in moved && |moved| == capacity
    ensures forall t': seq<Slot<K, V>> :: |t'| == capacity && Represents(t', moved) ==>
      forall p :: 0 <= p < capacity ==> t'[p].Used? && t'[p].key != t[j].key
    decreases |t| - i
  {
    if i == |t| {
      assert t[..i] == t;
      RepresentsOneMap(t, m, all);
      assert false;
    } else {
      AppendRepresents(t, m, i);
      if t[i].Free? {
        j, moved := RehashGetsStuck(t, m, i + 1, capacity, all);
      } else if |m| < capacity {
        j, moved := RehashGetsStuck(t, m[t[i].key := t[i].value], i + 1, capacity, all);
      } else {
        j, moved := i, m;
        forall t': seq<Slot<K, V>> | |t'| == capacity && Represents(t', moved)
          ensures forall p :: 0 <= p < capacity ==> t'[p].Used? && t'[p].key != t[j].key
        {
          FullTableTraps(t', moved, t[j].key);
        }
      }
    }
  }

  class Table<K(==), V> {
    var table: array<Slot<K, V>>
    var size: nat
    var growthTrigger: nat
    const factors: Factors
    const hash: K -> nat
    ghost var Contents: map<K, V>

    /** The slots hold exactly the contents, and no probe path has a gap. */
    ghost predicate Stored()
      reads this, table
    {
      && factors.Divides()
      && table.Length % 30 == 1
      && size == |Contents| <= table.Length
      && growthTrigger == factors.Trigger(table.Length)
      && PathsFull(hash, table[..])
      && Represents(table[..], Contents)
    }

    /** And a slot is free, to end the probe for an absent key. */
    ghost predicate Valid()
      reads this, table
    {
      Stored() && size < table.Length
    }

    /** `ww_hash_table_init2`, with any factors by which it can divide. */
    constructor Init2(hash: K -> nat, estimatedMaxSize: nat, factors: Factors)
      requires factors.Divides()
      ensures Valid() && fresh(table) && Contents == map[]
      ensures this.factors == factors && this.hash == hash
      ensures table.Length == factors.FirstCapacity(estimatedMaxSize)
    {
      var capacity := RoundCapacityUp(Scale(estimatedMaxSize, factors.densityDenom, factors.densityNumer));
      this.hash := hash;
      table := new Slot<K, V>[capacity](_ => Free);
      size := 0;
      this.factors := factors;
      growthTrigger := Scale(capacity, factors.densityNumer, factors.densityDenom);
      Contents := map[];
    }

    ghost function CurrentLoad(): Load<K, V>
      reads this
    {
      Load(Contents, table.Length)
    }

    /** The probe loop shared by get, set and remove: walk from the key's ideal slot to the key or to
        the first free slot. */
    method Probe(key: K) returns (ii: nat, found: bool)
      requires Valid()
      ensures ii < table.Length
      ensures found == (key in Contents)
      ensures found ==> table[ii].Used? && table[ii].key == key
      ensures !found ==> table[ii].Free?
      ensures forall q :: 0 <= q < table.Length && OnPath(Ideal(hash, key, table.Length), q, ii) ==> table[q].Used?
      ensures var first := table[hash(key) % table.Length];
        first.Free? || first.key == key ==> ii == hash(key) % table.Length
    {
      ghost var t := table[..];
      ghost var f := FreeSlotExists(t, Contents);
      var capacity := table.Length;
      ii := Ideal(hash, key, capacity);
      while true
        invariant ii <= capacity
        invariant var w := if ii == capacity then 0 else ii;
          && Dist(Ideal(hash, key, capacity), w, capacity) + Dist(w, f, capacity) ==
             Dist(Ideal(hash, key, capacity), f, capacity)
          && forall q :: 0 <= q < capacity && OnPath(Ideal(hash, key, capacity), q, w) ==> t[q].Used? && t[q].key != key
        decreases Dist(if ii == capacity then 0 else ii, f, capacity)
      {
        if ii == capacity { ii := 0; }
        match table[ii] {
          case Free =>
            ProbeMiss(hash, t, key, ii);
            return ii, false;
          case Used(k, _) =>
            assert t[ii].Used?;
            if k == key {
              return ii, true;
            }
        }
        ii := ii + 1;
      }
    }

    method GetValue(key: K) returns (rc: Status, value: Option<V>)
      requires Valid()
      ensures rc == if key in Contents then Success else NotFound
      ensures value == if key in Contents then Some(Contents[key]) else None
    {
      var ii, found := Probe(key);
      if found {
        assert table[..][ii].Used?;
        return Success, Some(table[ii].value);
      }
      return NotFound, None;
    }

    /** Rehash every entry into a larger table. */
    method Grow()
      requires factors.Divides() && size == |Contents| <= factors.NextCapacity(table.Length)
      requires Represents(table[..], Contents)
      modifies this
      ensures Stored() && fresh(table)
      ensures Contents == old(Contents)
      ensures table.Length == factors.NextCapacity(old(table.Length))
    {
      var oldTable := table;
      ghost var t := table[..];
      var newCapacity := RoundCapacityUp(Scale(table.Length, factors.growthNumer, factors.growthDenom));
      var newTable := new Slot<K, V>[newCapacity](_ => Free);
      ghost var moved: map<K, V> := map[];
      var jj := 0;
      while jj < oldTable.Length
        modifies newTable
        invariant jj <= |t| && oldTable == old(table) && oldTable[..] == t
        invariant Represents(t[..jj], moved)
        invariant PathsFull(hash, newTable[..]) && Represents(newTable[..], moved)
      {
        var elt := oldTable[jj];
        AppendRepresents(t, moved, jj);
        if elt.Used? {
          MovedSoFar(t, Contents, moved, jj);
          var ii := FirstFree(hash, newTable, moved, elt.key);
          InsertKeeps(hash, newTable[..], moved, ii, elt.key, elt.value);
          ghost var before := newTable[..];
          newTable[ii] := elt;
          assert newTable[..] == before[ii := elt];
          moved := moved[elt.key := elt.value];
        }
        jj := jj + 1;
      }
      assert t[..|t|] == t;
      RepresentsOneMap(t, moved, Contents);
      table := newTable;
      growthTrigger := Scale(newCapacity, factors.densityNumer, factors.densityDenom);
    }

    /** A new entry goes into the free slot at the end of its probe. */
    method Fill(ii: nat, key: K, value: V)
      requires Valid() && ii < table.Length && table[ii].Free? && key !in Contents
      requires forall q :: 0 <= q < table.Length && OnPath(Ideal(hash, key, table.Length), q, ii) ==> table[q].Used?
      modifies this`size, this`Contents, table
      ensures Stored() && size == old(size) + 1 && Contents == old(Contents)[key := value]
    {
      ghost var t := table[..];
      InsertKeeps(hash, t, Contents, ii, key, value);
      table[ii] := Used(key, value);
      assert table[..] == t[ii := Used(key, value)];
      Contents := Contents[key := value];
      size := size + 1;
    }

    /** A stored key gets another value. */
    method Replace(ii: nat, value: V)
      requires Valid() && ii < table.Length && table[ii].Used?
      modifies this`Contents, table
      ensures Valid() && Contents == old(Contents)[old(table[ii]).key := value]
    {
      ghost var t := table[..];
      ReplaceKeeps(hash, t, Contents, ii, value);
      Contents := Contents[table[ii].key := value];
      table[ii] := Used(table[ii].key, value);
      assert table[..] == t[ii := Used(t[ii].key, value)];
      assert t[ii].key in old(Contents);
    }

    /** The set of a new key is stored wherever there is a slot for it; one that takes the last slot leaves a table
        in which every slot is used. */
    method SetValue(key: K, value: V) returns (rc: Status)
      requires Valid()
      requires key in Contents || |Contents| + 1 <= CapacityAfter(factors, CurrentLoad(), key)
      modifies this, table
      ensures Stored() && (table == old(table) || fresh(table))
      ensures Valid() <==> !FillsUp(factors, old(CurrentLoad()), key)
      ensures !Valid() ==> forall p :: 0 <= p < table.Length ==> table[p].Used?
      ensures rc == Success && Contents == old(Contents)[key := value]
      ensures table.Length == CapacityAfter(factors, old(CurrentLoad()), key)
      ensures key !in old(Contents) && (table == old(table) || factors == DEFAULT_FACTORS) ==> size < growthTrigger
    {
      var ii, found := Probe(key);
      if !found {
        Fill(ii, key, value);
        if size >= growthTrigger {
          DefaultGrowSuffices(table.Length, size);
          Grow();
        }
      } else {
        Replace(ii, value);
      }
      if size == table.Length { FullTable(table[..], Contents); }
      return Success;
    }

    method RemoveValue(key: K) returns (rc: Status)
      requires Valid()
      modifies this, table
      ensures Valid() && table == old(table)
      ensures rc == if key in old(Contents) then Success else NotFound
      ensures Contents == old(Contents) - {key}
    {
      var ii, found := Probe(key);
      if !found {
        return NotFound;
      }
      rc := RemoveEltAt(ii);
    }

    /** Rehash the entry at the scan position: leave it, or move it into the hole. */
    method RePlace(ii: nat, ghost hole: nat, ghost f: nat) returns (ghost hole': nat)
      requires ii < table.Length && Represents(table[..], Contents)
      requires Scanning(hash, table[..], hole, ii, f) && table[ii].Used?
      modifies table
      ensures Scanning(hash, table[..], hole', Next(ii, table.Length), f)
      ensures Represents(table[..], Contents)
      ensures Dist(Next(ii, table.Length), f, table.Length) < Dist(ii, f, table.Length)
    {
      ghost var t := table[..];
      ScanAhead(hash, t, hole, ii, f);
      var jj := FirstFreeBefore(hash, table, ii);
      if jj == ii {
        StayKeepsHole(hash, t, hole, ii, f);
        return hole;
      }
      assert Before(hash, t, jj, ii);
      MoveShiftsHole(hash, t, hole, ii, f);
      MoveRepresents(t, Contents, hole, ii);
      table[jj] := table[ii];
      table[ii] := Free;
      assert table[..] == t[hole := t[ii]][ii := Free];
      return ii;
    }

    /** Scan the slots after the emptied slot `at` and re-place what they hold, up to a free slot. */
    method RePlaceFollowers(at: nat, ghost f: nat)
      requires at < table.Length && Represents(table[..], Contents)
      requires Scanning(hash, table[..], at, Next(at, table.Length), f)
      modifies table
      ensures PathsFull(hash, table[..]) && Represents(table[..], Contents)
    {
      var capacity := table.Length;
      ghost var hole, w := at, Next(at, capacity);
      var ii: nat := at + 1;
      while true
        invariant ii <= capacity && w == if ii == capacity then 0 else ii
        invariant Represents(table[..], Contents) && Scanning(hash, table[..], hole, w, f)
        modifies table
        decreases Dist(w, f, capacity)
      {
        if ii == capacity { ii := 0; }
        if table[ii].Free? {
          HoleCloses(hash, table[..], hole, ii);
          return;
        }
        hole := RePlace(ii, hole, f);
        w := Next(ii, capacity);
        ii := ii + 1;
      }
    }

    /** Remove the entry of slot `at`, then re-place every entry of the rest of its cluster. */
    method RemoveEltAt(at: nat) returns (rc: Status)
      requires Valid() && at < table.Length
      modifies this, table
      ensures Valid() && table == old(table)
      ensures rc == if old(table[at]).Used? then Success else Error
      ensures Contents == if old(table[at]).Used? then old(Contents) - {old(table[at]).key} else old(Contents)
    {
      if table[at].Free? {
        return Error;
      }
      ghost var t := table[..];
      ghost var f := FreeSlotExists(t, Contents);
      ClearOpensHole(hash, t, at, f);
      ClearRepresents(t, Contents, at);
      Contents := Contents - {table[at].key};
      table[at] := Free;
      assert table[..] == t[at := Free];
      RePlaceFollowers(at, f);
      size := size - 1;
      return Success;
    }

    /** Forget every entry; capacity and trigger stay. */
    method RemoveAll() returns (rc: Status)
      requires Valid()
      modifies this, table
      ensures Valid() && table == old(table)
      ensures rc == Success && Contents == map[]
    {
      var ii := 0;
      while ii < table.Length
        invariant ii <= table.Length
        invariant forall p :: 0 <= p < ii ==> table[p].Free?
        modifies table
      {
        table[ii] := Free;
        ii := ii + 1;
      }
      assert forall p :: 0 <= p < |table[..]| ==> table[..][p].Free?;
      size, Contents := 0, map[];
      return Success;
    }

    /** The first used slot after `prev`, or from the start when there is no `prev`. */
    method GetNextElt(prev: Option<nat>) returns (next: Option<nat>)
      requires prev.Some? ==> prev.value < table.Length
      ensures next.Some? ==> After(prev) <= next.value < table.Length && table[next.value].Used?
      ensures forall p :: After(prev) <= p < (if next.Some? then next.value else table.Length) ==> table[p].Free?
    {
      var ii := After(prev);
      while ii < table.Length
        invariant After(prev) <= ii <= table.Length
        invariant forall p :: After(prev) <= p < ii ==> table[p].Free?
      {
        if table[ii].Used? {
          return Some(ii);
        }
        ii := ii + 1;
      }
      return None;
    }

    static function After(prev: Option<nat>): nat {
      if prev.Some? then prev.value + 1 else 0
    }

    /** The caller's first/next loop sees every binding exactly once. */
    method Traverse() returns (visited: seq<(K, V)>)
      requires Valid()
      ensures Enumerates(visited, Contents)
    {
      ghost var t := table[..];
      ghost var seen: map<K, V> := map[];
      visited := [];
      var node: Option<nat> := GetNextElt(None);
      SkipFree(t, seen, 0, At(node));
      while node.Some?
        invariant At(node) <= |t| && (node.Some? ==> node.value < |t| && t[node.value].Used?)
        invariant Represents(t[..At(node)], seen) && Enumerates(visited, seen)
        invariant node.None? ==> At(node) == |t|
        decreases |t| - At(node)
      {
        var elt := table[node.value];
        AppendRepresents(t, seen, node.value);
        EnumeratesOneMore(visited, seen, elt.key, elt.value);
        visited := visited + [(elt.key, elt.value)];
        seen := seen[elt.key := elt.value];
        var next: Option<nat> := GetNextElt(node);
        SkipFree(t, seen, node.value + 1, At(next));
        node := next;
      }
      assert t[..|t|] == t;
      RepresentsOneMap(t, seen, Contents);
    }

    ghost function At(node: Option<nat>): nat
      reads this
    {
      if node.Some? then node.value else table.Length
    }

    /** One operation of a run, by its name. */
    method Apply(op: Op<K, V>) returns (reply: Reply<V>)
      requires Valid() && !Crowds(factors, CurrentLoad(), op)
      modifies this, table
      ensures Valid() && (table == old(table) || fresh(table))
      ensures CurrentLoad() == NextLoad(factors, old(CurrentLoad()), op)
      ensures Contents == Effect(old(Contents), op) && reply == Answer(old(Contents), op)
    {
      var rc, found := Success, None;
      match op {
        case Get(k) => rc, found := GetValue(k);
        case Set(k, v) => rc := SetValue(k, v);
        case Remove(k) => rc := RemoveValue(k);
        case RemoveAll => rc := RemoveAll();
      }
      reply := Reply(rc, found, size);
    }
  }

  /** The list holds each binding of the map once, and nothing else. */
  ghost predicate Enumerates<K, V>(list: seq<(K, V)>, m: map<K, V>) {
    && |list| == |m|
    && (forall i, j :: 0 <= i < j < |list| ==> list[i].0 != list[j].0)
    && (forall i :: 0 <= i < |list| ==> list[i].0 in m && list[i].1 == m[list[i].0])
    && (forall k :: k in m ==> (k, m[k]) in list)
  }

  lemma EnumeratesOneMore<K, V>(list: seq<(K, V)>, m: map<K, V>, k: K, v: V)
    requires Enumerates(list, m) && k !in m
    ensures Enumerates(list + [(k, v)], m[k := v])
  {
    var list', m' := list + [(k, v)], m[k := v];
    forall x | x in m' ensures (x, m'[x]) in list' {
      if x != k { assert (x, m[x]) in list; } else { assert list'[|list|] == (x, m'[x]); }
    }
  }

  lemma {:induction false} SkipFree<K, V>(t: seq<Slot<K, V>>, m: map<K, V>, i: nat, j: nat)
    requires i <= j <= |t| && Unique(t) && Represents(t[..i], m)
    requires forall p :: i <= p < j ==> t[p].Free?
    ensures Represents(t[..j], m)
    decreases j - i
  {
    if i < j {
      AppendRepresents(t, m, i);
      SkipFree(t, m, i + 1, j);
    }
  }

  // ------------------------------------------------------------------------
  // Default load factors, and whole runs
  // ------------------------------------------------------------------------

  /** With density 1/2 and growth 2/1 one grow brings any full-enough size below the new trigger. */
  lemma DefaultGrowSuffices(capacity: nat, size: nat)
    requires capacity % 30 == 1 && size <= capacity
    ensures size < Scale(RoundCapacityUp(Scale(capacity, 2, 1)), 1, 2)
  {
  }

  datatype Op<K, V> = Get(key: K) | Set(key: K, value: V) | Remove(key: K) | RemoveAll

  datatype Reply<V> = Reply(rc: Status, found: Option<V>, size: nat)

  /** What a finite map does under one operation, and what the caller is told. */
  function Effect<K, V>(m: map<K, V>, op: Op<K, V>): map<K, V> {
    match op
    case Get(_) => m
    case Set(k, v) => m[k := v]
    case Remove(k) => m - {k}
    case RemoveAll => map[]
  }

  function Answer<K, V>(m: map<K, V>, op: Op<K, V>): Reply<V> {
    var n := |Effect(m, op)|;
    match op
    case Get(k) => if k in m then Reply(Success, Some(m[k]), n) else Reply(NotFound, None, n)
    case Set(_, _) => Reply(Success, None, n)
    case Remove(k) => Reply(if k in m then Success else NotFound, None, n)
    case RemoveAll => Reply(Success, None, n)
  }

  function Answers<K, V>(m: map<K, V>, ops: seq<Op<K, V>>): seq<Reply<V>>
    decreases |ops|
  {
    if ops == [] then [] else [Answer(m, ops[0])] + Answers(Effect(m, ops[0]), ops[1..])
  }

  function NextLoad<K, V>(f: Factors, s: Load<K, V>, op: Op<K, V>): Load<K, V>
    requires f.Divides()
  {
    Load(Effect(s.contents, op), if op.Set? then CapacityAfter(f, s, op.key) else s.capacity)
  }

  predicate Crowds<K, V>(f: Factors, s: Load<K, V>, op: Op<K, V>)
    requires f.Divides()
  {
    op.Set? && FillsUp(f, s, op.key)
  }

  /** No operation of the run leaves the table without a free slot. */
  ghost predicate NeverFull<K, V>(f: Factors, s: Load<K, V>, ops: seq<Op<K, V>>)
    requires f.Divides()
    decreases |ops|
  {
    ops == [] || (!Crowds(f, s, ops[0]) && NeverFull(f, NextLoad(f, s, ops[0]), ops[1..]))
  }

  lemma RoomKept<K, V>(f: Factors, s: Load<K, V>, op: Op<K, V>)
    requires f.InRange() && |s.contents| < s.capacity
    ensures !Crowds(f, s, op) && |NextLoad(f, s, op).contents| < NextLoad(f, s, op).capacity
  {
    match op
    case Get(_) =>
    case RemoveAll =>
    case Remove(k) =>
      Sets.SubsetSize((s.contents - {k}).Keys, s.contents.Keys);
    case Set(k, v) =>
      InRangeLeavesRoom(f, s, k);
      if k in s.contents { assert s.contents[k := v].Keys == s.contents.Keys; }
  }

  /** With factors in range no run does. */
  lemma {:induction false} InRangeNeverFull<K, V>(f: Factors, s: Load<K, V>, ops: seq<Op<K, V>>)
    requires f.InRange() && |s.contents| < s.capacity
    ensures NeverFull(f, s, ops)
    decreases |ops|
  {
    if ops != [] {
      RoomKept(f, s, ops[0]);
      InRangeNeverFull(f, NextLoad(f, s, ops[0]), ops[1..]);
    }
  }

  lemma AnswersStep<K, V>(m: map<K, V>, ops: seq<Op<K, V>>, i: nat, replies: seq<Reply<V>>)
    requires i < |ops|
    ensures replies + Answers(m, ops[i..]) == replies + [Answer(m, ops[i])] + Answers(Effect(m, ops[i]), ops[i + 1..])
  {
    assert ops[i..][0] == ops[i] && ops[i..][1..] == ops[i + 1..];
  }

  /** Any run of operations on a fresh table answers exactly as a finite map does, as long as no operation
      leaves it without a free slot. */
  method Run<K(==), V>(hash: K -> nat, estimatedMaxSize: nat, f: Factors, ops: seq<Op<K, V>>)
    returns (replies: seq<Reply<V>>)
    requires f.Divides() && NeverFull(f, Load(map[], f.FirstCapacity(estimatedMaxSize)), ops)
    ensures replies == Answers(map[], ops)
  {
    var ht := new Table<K, V>.Init2(hash, estimatedMaxSize, f);
    replies := [];
    assert ops[0..] == ops;
    for i := 0 to |ops|
      invariant ht.Valid() && fresh(ht) && fresh(ht.table) && ht.factors == f
      invariant NeverFull(f, ht.CurrentLoad(), ops[i..])
      invariant replies + Answers(ht.Contents, ops[i..]) == Answers(map[], ops)
    {
      AnswersStep(ht.Contents, ops, i, replies);
      NeverFullStep(f, ht.CurrentLoad(), ops, i);
      var reply := ht.Apply(ops[i]);
      replies := replies + [reply];
    }
  }

  lemma NeverFullStep<K, V>(f: Factors, s: Load<K, V>, ops: seq<Op<K, V>>, i: nat)
    requires f.Divides() && i < |ops| && NeverFull(f, s, ops[i..])
    ensures !Crowds(f, s, ops[i]) && NeverFull(f, NextLoad(f, s, ops[i]), ops[i + 1..])
  {
    assert ops[i..][0] == ops[i] && ops[i..][1..] == ops[i + 1..];
  }

  /** With the factors in range, as the default ones are, that is every run. */
  method RunInRange<K(==), V>(hash: K -> nat, estimatedMaxSize: nat, f: Factors, ops: seq<Op<K, V>>)
    returns (replies: seq<Reply<V>>)
    requires f.InRange()
    ensures replies == Answers(map[], ops)
  {
    ghost var load: Load<K, V> := Load(map[], f.FirstCapacity(estimatedMaxSize));
    InRangeNeverFull(f, load, ops);
    replies := Run(hash, estimatedMaxSize, f, ops);
  }

  // ------------------------------------------------------------------------
  // Factors out of range
  // ------------------------------------------------------------------------

  /** The run that sets the keys from `i` on, up to the capacity. */
  function FillRun(i: nat, capacity: nat): seq<Op<nat, nat>>
    decreases capacity - i
  {
    if capacity <= i then [] else [Set(i, 0)] + FillRun(i + 1, capacity)
  }

  function Filled(n: nat): (m: map<nat, nat>)
    ensures |m| == n && forall k: nat :: k in m <==> k < n
  {
    if n == 0 then map[] else Filled(n - 1)[n - 1 := 0]
  }

  /** When the trigger lies above the capacity, setting that many keys leaves no free slot. */
  lemma {:induction false} FillRunFills(f: Factors, i: nat, capacity: nat)
    requires f.Divides() && i < capacity < f.Trigger(capacity)
    ensures !NeverFull(f, Load(Filled(i), capacity), FillRun(i, capacity))
    decreases capacity - i
  {
    var s := Load(Filled(i), capacity);
    if i + 1 < capacity {
      FillRunFills(f, i + 1, capacity);
      assert Filled(i + 1) == Filled(i)[i := 0];
      assert NextLoad(f, s, Set(i, 0)) == Load(Filled(i + 1), capacity);
    }
  }

  /** So for every density above one there are a size estimate and a run that fill the table up. */
  lemma DenseTableFills(f: Factors) returns (estimatedMaxSize: nat, ops: seq<Op<nat, nat>>)
    requires f.Divides() && f.densityDenom < f.densityNumer
    ensures !NeverFull(f, Load(map[], f.FirstCapacity(estimatedMaxSize)), ops)
  {
    estimatedMaxSize := f.densityNumer;
    var capacity := f.FirstCapacity(estimatedMaxSize);
    ScaleOnce(f.densityNumer, f.densityDenom);
    DenseTrigger(capacity, f.densityNumer, f.densityDenom);
    ops := FillRun(0, capacity);
    FillRunFills(f, 0, capacity);
  }

  /** A table made for no entries has one slot. With a density of two the first entry takes it, and no slot is free. */
  method FillUp() returns (ht: Table<nat, nat>)
    ensures ht.factors == Factors(2, 1, 2, 1) && ht.Contents == map[7 := 0] && ht.table.Length == 1
    ensures ht.Stored() && !ht.Valid()
  {
    var f := Factors(2, 1, 2, 1);
    ht := new Table<nat, nat>.Init2(k => k, 0, f);
    assert f.FirstCapacity(0) == 1 && f.Trigger(1) == 2;
    var rc := ht.SetValue(7, 0);
  }

  /** No capacity up to the bound grows beyond it. */
  ghost predicate Bounded(f: Factors, bound: nat)
    requires f.Divides()
  {
    forall c: nat :: c <= bound ==> f.NextCapacity(c) <= bound
  }

  lemma SlowGrowthBounded(f: Factors, c: nat)
    requires f.Divides() && f.growthNumer < f.growthDenom && c <= 31 * f.growthDenom + 30
    ensures f.NextCapacity(c) <= 31 * f.growthDenom + 30
  {
    var n, d := f.growthNumer, f.growthDenom;
    var q := Scale(c, n, d);
    DivFloor(c * n, d);
    MulMonotone(c, n, d - 1);
    MulMonotone(d - 1, c, 31 * d + 30);
    assert c * (d - 1) == (d - 1) * c;
    assert (d - 1) * (31 * d + 30) <= 31 * d * d;
    MulCancel(q, 31 * d, d);
  }

  /** Under a bound on the capacities that many keys leave no free slot. */
  lemma {:induction false} BoundedFills(f: Factors, i: nat, capacity: nat, bound: nat)
    requires f.Divides() && Bounded(f, bound) && i < capacity <= bound
    ensures !NeverFull(f, Load(Filled(i), capacity), FillRun(i, bound))
    decreases bound - i
  {
    var s := Load(Filled(i), capacity);
    var next := CapacityAfter(f, s, i);
    assert next <= bound;
    if i + 1 < next {
      BoundedFills(f, i + 1, next, bound);
      assert Filled(i + 1) == Filled(i)[i := 0];
      assert NextLoad(f, s, Set(i, 0)) == Load(Filled(i + 1), next);
    }
  }

  /** For every growth below one there are a size estimate and a run that fill the table up. */
  lemma SlowTableFills(f: Factors) returns (estimatedMaxSize: nat, ops: seq<Op<nat, nat>>)
    requires f.Divides() && f.growthNumer < f.growthDenom
    ensures !NeverFull(f, Load(map[], f.FirstCapacity(estimatedMaxSize)), ops)
  {
    var bound := 31 * f.growthDenom + 30;
    forall c: nat | c <= bound ensures f.NextCapacity(c) <= bound {
      SlowGrowthBounded(f, c);
    }
    estimatedMaxSize := 0;
    assert f.FirstCapacity(0) == 1;
    ops := FillRun(0, bound);
    BoundedFills(f, 0, 1, bound);
  }

  /** The tables that no run can fill up are exactly those with density of at most one and growth of at least one. */
  lemma NeverFullExactly(f: Factors)
    requires f.Divides()
    ensures f.InRange() <==>
      forall estimatedMaxSize: nat, ops: seq<Op<nat, nat>> ::
        NeverFull(f, Load(map[], f.FirstCapacity(estimatedMaxSize)), ops)
  {
    if f.InRange() {
      forall estimatedMaxSize: nat, ops: seq<Op<nat, nat>>
        ensures NeverFull(f, Load(map[], f.FirstCapacity(estimatedMaxSize)), ops)
      {
        InRangeNeverFull(f, Load(map[], f.FirstCapacity(estimatedMaxSize)), ops);
      }
    } else if f.densityDenom < f.densityNumer {
      var estimatedMaxSize, ops := DenseTableFills(f);
    } else {
      var estimatedMaxSize, ops := SlowTableFills(f);
    }
  }
}
