/** Dynamic array of pointers that hands out its lowest free index (src/class/ww_pointer_array.c). */
module PointerArray {
  import opened Wrappers

  const INT_MAX := 0x7fff_ffff
  const TABLE_INIT := 1
  const TABLE_GROW := 2

  /** Number of NULL slots. */
  function CountFree<T>(s: seq<Option<T>>): (n: nat)
    ensures n <= |s|
  {
    if s == [] then 0 else CountFree(s[..|s| - 1]) + (if s[|s| - 1].None? then 1 else 0)
  }

  lemma {:induction false} CountFreeConcat<T>(a: seq<Option<T>>, b: seq<Option<T>>)
    ensures CountFree(a + b) == CountFree(a) + CountFree(b)
  {
    if b == [] {
      assert a + b == a;
    } else {
      assert (a + b)[..|a + b| - 1] == a + b[..|b| - 1];
      CountFreeConcat(a, b[..|b| - 1]);
    }
  }

  lemma CountFreeUpdate<T>(s: seq<Option<T>>, i: nat, v: Option<T>)
    requires i < |s|
    ensures CountFree(s[i := v]) == CountFree(s) - (if s[i].None? then 1 else 0) + (if v.None? then 1 else 0)
  {
    var a, b := s[..i], s[i + 1..];
    assert s == a + [s[i]] + b && s[i := v] == a + [v] + b;
    assert [s[i]][..0] == [] && [v][..0] == [];
    CountFreeConcat(a + [s[i]], b);
    CountFreeConcat(a, [s[i]]);
    CountFreeConcat(a + [v], b);
    CountFreeConcat(a, [v]);
  }

  function Nones<T>(n: nat): (s: seq<Option<T>>)
    ensures |s| == n
  {
    seq(n, i => None)
  }

  lemma {:induction false} CountNones<T>(n: nat)
    ensures CountFree(Nones<T>(n)) == n
  {
    if n > 0 {
      assert Nones<T>(n)[..n - 1] == Nones<T>(n - 1);
      CountNones<T>(n - 1);
    }
  }

  lemma {:induction false} FreeSlot<T>(s: seq<Option<T>>)
    ensures CountFree(s) > 0 <==> exists i :: 0 <= i < |s| && s[i].None?
  {
    if s != [] {
      FreeSlot(s[..|s| - 1]);
      if CountFree(s[..|s| - 1]) > 0 {
        var i :| 0 <= i < |s| - 1 && s[..|s| - 1][i].None?;
        assert s[i].None?;
      }
    }
  }

  /** `k` is the least free index, or the size when there is none. */
  ghost predicate LowestFree<T>(s: seq<Option<T>>, k: nat) {
    && k <= |s|
    && (forall i :: 0 <= i < k ==> s[i].Some?)
    && (k < |s| ==> s[k].None?)
  }

  lemma GrowKeepsLowest<T>(s: seq<Option<T>>, k: nat, n: nat)
    requires LowestFree(s, k)
    ensures LowestFree(s + Nones(n), k) && CountFree(s + Nones<T>(n)) == CountFree(s) + n
  {
    CountNones<T>(n);
    CountFreeConcat(s, Nones(n));
  }

  /** `realloc` to a larger size, with the new slots set to NULL. */
  method Realloc<T>(a: array<Option<T>>, newSize: nat) returns (p: array<Option<T>>)
    requires a.Length <= newSize
    ensures fresh(p) && p[..] == a[..] + Nones(newSize - a.Length)
  {
    p := new Option<T>[newSize](_ => None);
    forall i | 0 <= i < a.Length {
      p[i] := a[i];
    }
  }

  class Table<T> {
    var lowestFree: nat
    var numberFree: nat
    var size: nat
    var maxSize: int
    var hasStorage: bool  // whether `addr` is non-NULL
    var addr: array<Option<T>>

    ghost predicate Valid()
      reads this, addr
    {
      && addr.Length == size && maxSize <= INT_MAX && (!hasStorage ==> size == 0)
      && numberFree == CountFree(addr[..])
      && LowestFree(addr[..], lowestFree)
    }

    constructor ()
      ensures Valid() && fresh(addr) && !hasStorage && size == 0 && maxSize == INT_MAX
    {
      lowestFree, numberFree, size := 0, 0, 0;
      maxSize, hasStorage := INT_MAX, false;
      addr := new Option<T>[0];
    }

    /** `ww_pointer_array_init`, on an object just constructed. */
    method Init(initialAllocation: int, maxSize: int, blockSize: int) returns (ok: bool)
      requires Valid() && size == 0 && maxSize <= INT_MAX && (0 < initialAllocation || 0 <= blockSize)
      modifies this
      ensures Valid() && ok == (blockSize <= maxSize)
      ensures !ok ==> unchanged(this)
      ensures ok ==> fresh(addr) && this.maxSize == maxSize && hasStorage
      ensures ok ==> addr[..] == Nones(if 0 < initialAllocation then initialAllocation else blockSize)
    {
      if maxSize < blockSize {
        return false;
      }
      this.maxSize := maxSize;
      var n := if 0 < initialAllocation then initialAllocation else blockSize;
      numberFree := n;
      size := n;
      hasStorage := true;
      addr := new Option<T>[n](_ => None);
      assert addr[..] == Nones(n);
      CountNones<T>(n);
      return true;
    }

    /** The size that growing with `soft` and `hard` would give, if the limit allows it. */
    function GrownSize(soft: int, hard: int): Option<int>
      reads this
    {
      if soft > maxSize && hard > maxSize then None
      else
        var newSize := if soft > maxSize then hard else soft;
        if newSize >= maxSize then None else Some(newSize)
    }

    /** `grow_table` */
    method Grow(soft: int, hard: int) returns (ok: bool)
      requires Valid() && size <= soft && size <= hard
      modifies this
      ensures Valid() && maxSize == old(maxSize) && hasStorage == (ok || old(hasStorage))
      ensures ok == GrownSize(soft, hard).Some? == old(GrownSize(soft, hard)).Some?
      ensures !ok ==> addr == old(addr) && addr[..] == old(addr[..])
      ensures ok ==> fresh(addr) && size == old(GrownSize(soft, hard)).value && old(size) <= size
      ensures numberFree - old(numberFree) == size - old(size)
      ensures ok ==> addr[..] == old(addr[..]) + Nones(size - old(size))
    {
      var newSize := soft;
      if soft > maxSize {
        if hard > maxSize {
          return false;
        }
        newSize := hard;
      }
      if newSize >= maxSize {
        return false;
      }
      GrowKeepsLowest(addr[..], lowestFree, newSize - size);
      var p := Realloc(addr, newSize);
      numberFree := numberFree + (newSize - size);
      addr := p;
      hasStorage := true;
      size := newSize;
      return true;
    }

    /** The scan loops: the next free index from `from` on, or the size. */
    method ScanFree(from: nat) returns (k: nat)
      requires addr.Length == size && from <= size
      requires forall i :: 0 <= i < from ==> addr[i].Some?
      ensures LowestFree(addr[..], k)
    {
      k := from;
      while k < size
        invariant from <= k <= size
        invariant forall i :: 0 <= i < k ==> addr[i].Some?
      {
        if addr[k].None? {
          return;
        }
        k := k + 1;
      }
    }

    /** Put a pointer into the least free slot and find the next one. */
    method Fill(ptr: T) returns (index: nat)
      requires Valid() && 0 < numberFree
      modifies this, addr
      ensures Valid() && maxSize == old(maxSize) && addr == old(addr) && hasStorage == old(hasStorage)
      ensures LowestFree(old(addr[..]), index) && index < |old(addr[..])|
      ensures addr[..] == old(addr[..])[index := Some(ptr)]
    {
      ghost var s := addr[..];
      FreeSlot(s);
      index := lowestFree;
      CountFreeUpdate(s, index, Some(ptr));
      addr[index] := Some(ptr);
      assert addr[..] == s[index := Some(ptr)];
      numberFree := numberFree - 1;
      FreeSlot(addr[..]);
      if numberFree > 0 {
        var i := ScanFree(lowestFree + 1);
        if i < size {
          lowestFree := i;
        }
      } else {
        lowestFree := size;
      }
    }

    /** The slots `add` chooses from: a full table is first doubled, and one without storage gets a slot. */
    ghost function AddSlots(): seq<Option<T>>
      reads this, addr
    {
      if numberFree == 0 then addr[..] + Nones(if hasStorage then size else 1) else addr[..]
    }

    /** Growing a full table so that it has a free slot, which doubling no slots does not give. */
    method MakeSlot() returns (ok: bool)
      requires Valid() && size <= INT_MAX
      modifies this
      ensures Valid() && maxSize == old(maxSize)
      ensures hasStorage ==> old(hasStorage) || 0 < size
      ensures !ok <==>
        old(numberFree) == 0 && (if old(hasStorage) then 2 * old(size) else 1) >= maxSize
      ensures addr[..] == if ok then old(AddSlots()) else old(addr[..])
      ensures ok ==> (0 < numberFree <==> !old(hasStorage) || 0 < old(size))
      ensures addr == old(addr) || fresh(addr)
    {
      ok := true;
      if numberFree == 0 {
        var wanted := if hasStorage then size * TABLE_GROW else TABLE_INIT;
        assert wanted == if hasStorage then 2 * size else 1;
        assert GrownSize(wanted, INT_MAX) == if wanted < maxSize then Some(wanted) else None;
        ok := Grow(wanted, INT_MAX);
      }
    }

    /** `ww_pointer_array_add`: fill the least free index; None when a full table may not grow. */
    method Add(ptr: T) returns (index: Option<nat>)
      requires Valid() && size <= INT_MAX && (hasStorage ==> 0 < size)
      modifies this, addr
      ensures Valid() && maxSize == old(maxSize)
      ensures hasStorage ==> old(hasStorage) || 0 < size
      ensures index.None? <==>
        old(numberFree) == 0 && (if old(hasStorage) then 2 * old(size) else 1) >= maxSize
      ensures index.None? ==> addr[..] == old(addr[..])
      ensures index.Some? ==> LowestFree(old(AddSlots()), index.value) && index.value < |old(AddSlots())|
      ensures index.Some? ==> addr[..] == old(AddSlots())[index.value := Some(ptr)]
    {
      var ok := MakeSlot();
      if !ok {
        return None;
      }
      var i := Fill(ptr);
      return Some(i);
    }

    /** The size that `set_item` and `test_and_set_item` ask for: `index` plus one, made even. */
    static function SoftSize(index: nat): (n: nat)
      ensures index < n <= index + 2 && n % 2 == 0
    {
      (index / TABLE_GROW + 1) * TABLE_GROW
    }

    /** The slots when `index` has to exist: a shorter table has grown to the soft size. */
    ghost function SlotsFor(index: nat): seq<Option<T>>
      reads this, addr
    {
      addr[..] + Nones(if size <= index then SoftSize(index) - size else 0)
    }

    /** The hard size that those functions pass is `index`, one too small: growing succeeds without making
        room for `index` exactly when `index` is the largest below the limit and even. */
    lemma OverrunExactly(index: nat)
      requires size <= index
      ensures var g := GrownSize(SoftSize(index), index);
        g.Some? && g.value <= index <==> index == maxSize - 1 && index % 2 == 0
      ensures var g := GrownSize(SoftSize(index), index);
        g.Some? && index < g.value <==> SoftSize(index) < maxSize
    {
    }

    /** Growing so that `index` exists. */
    method MakeRoom(index: nat) returns (ok: bool)
      requires Valid() && !(size <= index == maxSize - 1 && index % 2 == 0)
      modifies this
      ensures Valid() && maxSize == old(maxSize)
      ensures hasStorage ==> old(hasStorage) || 0 < size
      ensures ok <==> old(size) > index || SoftSize(index) < maxSize
      ensures ok ==> index < size && addr[..] == old(SlotsFor(index)) && (addr == old(addr) || fresh(addr))
      ensures !ok ==> addr == old(addr) && addr[..] == old(addr[..])
    {
      if size <= index {
        OverrunExactly(index);
        ok := Grow(SoftSize(index), index);
      } else {
        assert addr[..] + Nones(0) == addr[..];
        ok := true;
      }
    }

    /** `ww_pointer_array_set_item`: store a pointer, or NULL to free the slot. */
    method SetItem(index: nat, value: Option<T>) returns (ok: bool)
      requires Valid() && !(size <= index == maxSize - 1 && index % 2 == 0)
      modifies this, addr
      ensures Valid() && maxSize == old(maxSize)
      ensures hasStorage ==> old(hasStorage) || 0 < size
      ensures ok <==> old(size) > index || SoftSize(index) < maxSize
      ensures addr[..] == if ok then old(SlotsFor(index))[index := value] else old(addr[..])
    {
      ok := MakeRoom(index);
      if !ok {
        return;
      }
      ghost var s := addr[..];
      CountFreeUpdate(s, index, value);
      if value.None? {
        if index < lowestFree {
          lowestFree := index;
        }
        if addr[index].Some? {
          numberFree := numberFree + 1;
        }
        addr[index] := value;
        assert addr[..] == s[index := value];
      } else {
        if addr[index].None? {
          FreeSlot(s);
          numberFree := numberFree - 1;
        }
        StoreAndRescan(index, value);
      }
    }

    /** Fill a slot and, if it was the lowest free one, look for the next. */
    method StoreAndRescan(index: nat, value: Option<T>)
      requires addr.Length == size && index < size && LowestFree(addr[..], lowestFree) && value.Some?
      modifies this`lowestFree, addr
      ensures LowestFree(addr[..], lowestFree) && addr[..] == old(addr[..])[index := value]
    {
      ghost var s := addr[..];
      addr[index] := value;
      assert addr[..] == s[index := value];
      if index == lowestFree {
        lowestFree := ScanFree(index);
      }
    }

    /** `ww_pointer_array_test_and_set_item`: store only into a free slot. */
    method TestAndSetItem(index: nat, value: T) returns (ok: bool)
      requires Valid() && !(size <= index == maxSize - 1 && index % 2 == 0)
      modifies this, addr
      ensures Valid() && maxSize == old(maxSize)
      ensures hasStorage ==> old(hasStorage) || 0 < size
      ensures ok <==> if old(size) > index then old(addr[..])[index].None? else SoftSize(index) < maxSize
      ensures addr[..] == if ok then old(SlotsFor(index))[index := Some(value)] else old(addr[..])
    {
      if index < size && addr[index].Some? {
        return false;
      }
      ok := MakeRoom(index);
      if !ok {
        return;
      }
      FreeSlot(addr[..]);
      CountFreeUpdate(addr[..], index, Some(value));
      numberFree := numberFree - 1;
      StoreAndRescan(index, Some(value));
    }

    /** `ww_pointer_array_set_size` */
    method SetSize(newSize: nat) returns (ok: bool)
      requires Valid()
      modifies this
      ensures Valid() && maxSize == old(maxSize)
      ensures hasStorage ==> old(hasStorage) || 0 < size
      ensures ok <==> newSize <= old(size) || newSize < maxSize
      ensures addr[..] == old(addr[..]) + Nones(if ok && newSize > old(size) then newSize - old(size) else 0)
    {
      ok := true;
      if newSize > size {
        ok := Grow(newSize, newSize);
      }
      assert addr[..] + Nones(0) == addr[..];
    }

    /** `ww_pointer_array_get_item`: NULL beyond the size. */
    method GetItem(index: nat) returns (p: Option<T>)
      requires Valid()
      ensures p == if index < |addr[..]| then addr[..][index] else None
    {
      if size <= index {
        return None;
      }
      p := addr[index];
    }

    /** `ww_pointer_array_remove_all` */
    method RemoveAll()
      requires Valid()
      modifies this, addr
      ensures Valid() && maxSize == old(maxSize) && addr == old(addr) && hasStorage == old(hasStorage)
      ensures addr[..] == Nones(old(size))
    {
      AllFree(addr[..]);
      if numberFree == size {
        return;
      }
      lowestFree := 0;
      numberFree := size;
      for i := 0 to size
        modifies addr
        invariant forall k :: 0 <= k < i ==> addr[k].None?
      {
        addr[i] := None;
      }
      assert addr[..] == Nones(size);
      CountNones<T>(size);
    }
  }

  /** Only an empty table has as many free slots as slots. */
  lemma {:induction false} AllFree<T>(s: seq<Option<T>>)
    ensures CountFree(s) == |s| <==> s == Nones(|s|)
  {
    if s != [] {
      AllFree(s[..|s| - 1]);
      assert s == s[..|s| - 1] + [s[|s| - 1]];
      assert Nones<T>(|s|)[..|s| - 1] == Nones(|s| - 1);
    }
  }

  /** From a new table with the limit 3 growing for index 2 succeeds, and there is still no index 2. */
  method ReachOverrun() returns (table: Table<int>, ok: bool)
    ensures ok && table.Valid() && table.size == 2 && table.maxSize == 3
  {
    table := new Table<int>();
    ok := table.Init(1, 3, 0);
    table.OverrunExactly(2);
    ok := table.Grow(Table<int>.SoftSize(2), 2);
  }

  /** A table initialised with no slots has storage but none to give out, and doubling it gives none either. */
  method ReachNoSlots(maxSize: int) returns (table: Table<int>, ok: bool)
    requires 0 < maxSize <= INT_MAX
    ensures ok && table.Valid() && table.maxSize == maxSize
    ensures table.hasStorage && table.numberFree == 0 && table.size == 0
  {
    table := new Table<int>();
    ok := table.Init(0, maxSize, 0);
    FreeSlot(table.addr[..]);
    ok := table.Grow(table.size * TABLE_GROW, INT_MAX);
    FreeSlot(table.addr[..]);
  }
}
