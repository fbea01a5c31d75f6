/** A fixed set of rooms with checkin, checkout and timed eviction (src/class/ww_hotel.h, ww_hotel.c). */
module Hotel {
  import opened Wrappers
  import Sets

  /** All entries are below `n` and different from each other. */
  ghost predicate DistinctBelow(s: seq<nat>, n: nat) {
    && (forall i :: 0 <= i < |s| ==> s[i] < n)
    && (forall i, j :: 0 <= i < j < |s| ==> s[i] != s[j])
  }

  function Below(n: nat): (s: set<nat>)
    ensures |s| == n && forall x: nat :: x in s <==> x < n
  {
    if n == 0 then {} else Below(n - 1) + {n - 1}
  }

  ghost function Elements(s: seq<nat>): set<nat> {
    set x | x in s
  }

  lemma {:induction false} DistinctSize(s: seq<nat>, n: nat)
    requires DistinctBelow(s, n)
    ensures |Elements(s)| == |s|
  {
    if s != [] {
      var front, last := s[..|s| - 1], s[|s| - 1];
      DistinctSize(front, n);
      assert s == front + [last];
      assert Elements(s) == Elements(front) + {last};
    }
  }

  /** A list of different rooms that misses one room is shorter than the number of rooms. */
  lemma Pigeonhole(s: seq<nat>, n: nat, missing: nat)
    requires DistinctBelow(s, n) && missing < n && missing !in s
    ensures |s| < n
  {
    var present := Elements(s);
    DistinctSize(s, n);
    assert present <= Below(n) - {missing};
    Sets.SubsetSize(present, Below(n) - {missing});
  }

  /** A list of different rooms is all of them exactly when it is as long as the number of rooms. */
  lemma AllPresent(s: seq<nat>, n: nat)
    requires DistinctBelow(s, n)
    ensures |s| == n <==> forall r: nat :: r < n ==> r in s
  {
    var present := Elements(s);
    DistinctSize(s, n);
    if r: nat :| r < n && r !in s {
      Pigeonhole(s, n, r);
    } else {
      assert present == Below(n);
    }
  }

  /** `free` lists exactly the rooms without occupant, each once. */
  ghost predicate ListsFree<T>(free: seq<nat>, rooms: seq<Option<T>>) {
    && DistinctBelow(free, |rooms|)
    && forall r: nat :: r < |rooms| ==> (rooms[r].None? <==> r in free)
  }

  lemma TakeRoom<T>(free: seq<nat>, rooms: seq<Option<T>>, occupant: T)
    requires ListsFree(free, rooms) && free != []
    ensures var r := free[|free| - 1];
      r < |rooms| && rooms[r].None? && ListsFree(free[..|free| - 1], rooms[r := Some(occupant)])
  {
    var r := free[|free| - 1];
    var rest := free[..|free| - 1];
    assert r in free;
    forall q: nat | q < |rooms| && q != r ensures q in free <==> q in rest {
      if q in free {
        var i :| 0 <= i < |free| && free[i] == q;
        assert rest[i] == q;
      }
    }
  }

  lemma GiveRoom<T>(free: seq<nat>, rooms: seq<Option<T>>, r: nat)
    requires ListsFree(free, rooms) && r < |rooms| && rooms[r].Some?
    ensures |free| < |rooms| && ListsFree(free + [r], rooms[r := None])
  {
    assert r !in free;
    Pigeonhole(free, |rooms|, r);
  }

  /** The stack of unoccupied rooms, and all rooms with their occupants. */
  datatype House<T> = House(free: seq<nat>, rooms: seq<Option<T>>)

  class Hotel<T> {
    const numRooms: nat
    const hasEventBase: bool
    var occupants: array<Option<T>>
    var pending: array<bool>         // whether a room's eviction timer is pending
    var unoccupiedRooms: array<nat>
    var lastUnoccupied: int

    /** The stack of unoccupied rooms. */
    ghost function Free(): seq<nat>
      requires -1 <= lastUnoccupied < unoccupiedRooms.Length
      reads this, unoccupiedRooms
    {
      unoccupiedRooms[..lastUnoccupied + 1]
    }

    ghost predicate Valid()
      reads this, occupants, pending, unoccupiedRooms
    {
      && occupants.Length == pending.Length == unoccupiedRooms.Length == numRooms
      && -1 <= lastUnoccupied < numRooms
      && ListsFree(Free(), occupants[..])
      && (forall r :: 0 <= r < numRooms ==> pending[r] == (hasEventBase && occupants[r].Some?))
    }

    ghost function State(): House<T>
      requires -1 <= lastUnoccupied < unoccupiedRooms.Length
      reads this, occupants, unoccupiedRooms
    {
      House(Free(), occupants[..])
    }

    ghost predicate SameArrays(o: array<Option<T>>, p: array<bool>, u: array<nat>)
      reads this
    {
      occupants == o && pending == p && unoccupiedRooms == u
    }

    /** `ww_hotel_init` with parameters it accepts: at least one room, and a callback. */
    constructor (numRooms: nat, hasEventBase: bool)
      requires 0 < numRooms
      ensures Valid() && fresh(occupants) && fresh(pending) && fresh(unoccupiedRooms)
      ensures this.numRooms == numRooms && this.hasEventBase == hasEventBase
      ensures forall r :: 0 <= r < numRooms ==> occupants[r].None?
      ensures Free() == seq(numRooms, i requires 0 <= i => i)
    {
      this.numRooms, this.hasEventBase := numRooms, hasEventBase;
      occupants := new Option<T>[numRooms](_ => None);
      pending := new bool[numRooms](_ => false);
      unoccupiedRooms := new nat[numRooms](i requires 0 <= i => i);
      lastUnoccupied := numRooms - 1;
      new;
      forall r: nat | r < numRooms ensures r in Free() { assert Free()[r] == r; }
    }

    /** `ww_hotel_checkin`: the most recently vacated room, or None when the hotel is full. */
    method Checkin(occupant: T) returns (room: Option<nat>)
      requires Valid()
      modifies this, occupants, pending
      ensures Valid() && SameArrays(old(occupants), old(pending), old(unoccupiedRooms))
      ensures room.None? <==> old(Free()) == []
      ensures room.None? ==> Free() == old(Free()) && occupants[..] == old(occupants[..])
      ensures room.Some? ==>
        && room.value < numRooms && old(occupants[..])[room.value].None?
        && occupants[..] == old(occupants[..])[room.value := Some(occupant)]
        && old(Free()) == Free() + [room.value]
    {
      if lastUnoccupied < 0 {
        return None;
      }
      TakeRoom(Free(), occupants[..], occupant);
      ghost var before, free := occupants[..], Free();
      var roomNum := unoccupiedRooms[lastUnoccupied];
      assert roomNum == free[|free| - 1];
      lastUnoccupied := lastUnoccupied - 1;
      occupants[roomNum] := Some(occupant);
      assert occupants[..] == before[roomNum := Some(occupant)];
      assert Free() == free[..|free| - 1];
      if hasEventBase {
        pending[roomNum] := true;
      }
      return Some(roomNum);
    }

    /** What checkout and eviction do to an occupied room. */
    method Vacate(roomNum: nat)
      requires Valid() && roomNum < numRooms && occupants[roomNum].Some?
      modifies this, occupants, pending, unoccupiedRooms
      ensures Valid() && SameArrays(old(occupants), old(pending), old(unoccupiedRooms))
      ensures occupants[..] == old(occupants[..])[roomNum := None]
      ensures Free() == old(Free()) + [roomNum]
    {
      ghost var before, free := occupants[..], Free();
      GiveRoom(free, before, roomNum);
      occupants[roomNum] := None;
      assert occupants[..] == before[roomNum := None];
      if hasEventBase {
        pending[roomNum] := false;
      }
      lastUnoccupied := lastUnoccupied + 1;
      assert lastUnoccupied < numRooms;
      unoccupiedRooms[lastUnoccupied] := roomNum;
      assert Free() == free + [roomNum];
    }

    /** `ww_hotel_checkout_and_return_occupant`; `ww_hotel_checkout` is the same without the result. */
    method Checkout(roomNum: nat) returns (occupant: Option<T>)
      requires Valid() && roomNum < numRooms
      modifies this, occupants, pending, unoccupiedRooms
      ensures Valid() && SameArrays(old(occupants), old(pending), old(unoccupiedRooms))
      ensures occupant == old(occupants[..])[roomNum]
      ensures occupants[..] == old(occupants[..])[roomNum := None]
      ensures Free() == old(Free()) + (if occupant.Some? then [roomNum] else [])
    {
      ghost var before := occupants[..];
      occupant := occupants[roomNum];
      if occupant.Some? {
        Vacate(roomNum);
      } else {
        assert before == before[roomNum := None];
      }
    }

    /** `local_eviction_callback`, when the pending timer of a room fires; returns what the user callback gets. */
    method Evict(roomNum: nat) returns (occupant: Option<T>)
      requires Valid() && roomNum < numRooms && pending[roomNum]
      modifies this, occupants, pending, unoccupiedRooms
      ensures Valid() && SameArrays(old(occupants), old(pending), old(unoccupiedRooms))
      ensures occupant.Some? && occupant == old(occupants[..])[roomNum]
      ensures occupants[..] == old(occupants[..])[roomNum := None]
      ensures Free() == old(Free()) + [roomNum]
    {
      occupant := occupants[roomNum];
      Vacate(roomNum);
    }

    /** `ww_hotel_is_empty` */
    method IsEmpty() returns (empty: bool)
      requires Valid()
      ensures empty <==> forall r :: 0 <= r < numRooms ==> occupants[r].None?
    {
      AllPresent(Free(), numRooms);
      empty := lastUnoccupied == numRooms - 1;
    }

    /** `ww_hotel_knock` */
    method Knock(roomNum: nat) returns (occupant: Option<T>)
      requires Valid() && roomNum < numRooms
      ensures occupant == occupants[roomNum]
    {
      occupant := None;
      if occupants[roomNum].Some? {
        occupant := occupants[roomNum];
      }
    }
  }

  /** `ww_hotel_init`: refuses a hotel without rooms or without an eviction callback. */
  method Init<T>(numRooms: int, hasEventBase: bool, hasCallback: bool) returns (hotel: Hotel?<T>)
    ensures hotel == null <==> numRooms <= 0 || !hasCallback
    ensures hotel != null ==> fresh(hotel) && hotel.Valid()
    ensures hotel != null ==> hotel.numRooms == numRooms && hotel.hasEventBase == hasEventBase
    ensures hotel != null ==> forall r :: 0 <= r < numRooms ==> hotel.occupants[r].None?
  {
    if numRooms <= 0 || !hasCallback {
      return null;
    }
    hotel := new Hotel<T>(numRooms, hasEventBase);
  }

  // ------------------------------------------------------------------------
  // Whole runs
  // ------------------------------------------------------------------------

  function Occupant<T>(room: Option<T>): seq<T> {
    if room.Some? then [room.value] else []
  }

  /** The occupants of the first `n` rooms. */
  ghost function GuestsOf<T>(rooms: seq<Option<T>>, n: nat): multiset<T>
    requires n <= |rooms|
  {
    if n == 0 then multiset{} else GuestsOf(rooms, n - 1) + multiset(Occupant(rooms[n - 1]))
  }

  ghost function Guests<T>(rooms: seq<Option<T>>): multiset<T> {
    GuestsOf(rooms, |rooms|)
  }

  lemma AddBoth<T>(a: multiset<T>, b: multiset<T>, x: multiset<T>, y: multiset<T>, z: multiset<T>)
    requires a + x == b + y
    ensures (a + z) + x == (b + z) + y
  {
    assert (a + z) + x == (a + x) + z;
  }

  lemma Reorder<T>(a: multiset<T>, x: multiset<T>, y: multiset<T>)
    ensures (a + x) + y == (a + y) + x
  {
  }

  /** A new occupant comes and the old one goes; everyone else stays. */
  lemma {:induction false} GuestsUpdate<T>(rooms: seq<Option<T>>, r: nat, v: Option<T>, n: nat)
    requires r < |rooms| && n <= |rooms|
    ensures n <= r ==> GuestsOf(rooms[r := v], n) == GuestsOf(rooms, n)
    ensures r < n ==>
      GuestsOf(rooms[r := v], n) + multiset(Occupant(rooms[r])) == GuestsOf(rooms, n) + multiset(Occupant(v))
  {
    if n > 0 {
      GuestsUpdate(rooms, r, v, n - 1);
      var gone, come := multiset(Occupant(rooms[r])), multiset(Occupant(v));
      if r == n - 1 {
        Reorder(GuestsOf(rooms, r), come, gone);
      } else if r < n - 1 {
        AddBoth(GuestsOf(rooms[r := v], n - 1), GuestsOf(rooms, n - 1), gone, come, multiset(Occupant(rooms[n - 1])));
      }
    }
  }

  lemma {:induction false} NoGuests<T>(rooms: seq<Option<T>>, n: nat)
    requires n <= |rooms| && forall r :: 0 <= r < |rooms| ==> rooms[r].None?
    ensures GuestsOf(rooms, n) == multiset{}
  {
    if n > 0 { NoGuests(rooms, n - 1); }
  }

  datatype Op<T> = Checkin(guest: T) | Checkout(room: nat) | TimerFires(room: nat)

  /** Who enters: the guest of a checkin, while a room is free. */
  function Entering<T>(op: Op<T>, h: House<T>): seq<T> {
    if op.Checkin? && h.free != [] then [op.guest] else []
  }

  /** Who leaves: the occupant of the room. Without an event base there are no timers. */
  function Leaving<T>(op: Op<T>, h: House<T>, hasEventBase: bool): seq<T> {
    if op.Checkin? || |h.rooms| <= op.room || (op.TimerFires? && !hasEventBase) then [] else Occupant(h.rooms[op.room])
  }

  /** The house afterwards: the most recently vacated room is taken first. */
  ghost function Next<T>(op: Op<T>, h: House<T>, hasEventBase: bool): (h': House<T>)
    requires ListsFree(h.free, h.rooms)
    ensures ListsFree(h'.free, h'.rooms) && |h'.rooms| == |h.rooms|
  {
    if Entering(op, h) != [] then
      TakeRoom(h.free, h.rooms, op.guest);
      var n := |h.free| - 1;
      House(h.free[..n], h.rooms[h.free[n] := Some(op.guest)])
    else if Leaving(op, h, hasEventBase) != [] then
      GiveRoom(h.free, h.rooms, op.room);
      House(h.free + [op.room], h.rooms[op.room := None])
    else h
  }

  /** Who enters and leaves in the course of a run, and the house at its end. */
  ghost function Course<T>(ops: seq<Op<T>>, h: House<T>, hasEventBase: bool): (seq<T>, seq<T>, House<T>)
    requires ListsFree(h.free, h.rooms)
    decreases |ops|
  {
    if ops == [] then ([], [], h)
    else
      var (entered, left, h') := Course(ops[1..], Next(ops[0], h, hasEventBase), hasEventBase);
      (Entering(ops[0], h) + entered, Leaving(ops[0], h, hasEventBase) + left, h')
  }

  lemma CourseStep<T>(ops: seq<Op<T>>, i: nat, h: House<T>, hasEventBase: bool, entered: seq<T>, left: seq<T>)
    requires i < |ops| && ListsFree(h.free, h.rooms)
    ensures var c, c' := Course(ops[i..], h, hasEventBase),
                         Course(ops[i + 1..], Next(ops[i], h, hasEventBase), hasEventBase);
      && entered + c.0 == (entered + Entering(ops[i], h)) + c'.0
      && left + c.1 == (left + Leaving(ops[i], h, hasEventBase)) + c'.1
      && c.2 == c'.2
  {
    assert ops[i..][0] == ops[i] && ops[i..][1..] == ops[i + 1..];
  }

  /** Who was there or entered has left or is there. */
  ghost predicate Balanced<T>(rooms: seq<Option<T>>, entered: seq<T>, left: seq<T>, rooms': seq<Option<T>>) {
    Guests(rooms) + multiset(entered) == multiset(left) + Guests(rooms')
  }

  lemma CheckinBalances<T>(rooms: seq<Option<T>>, r: nat, guest: T)
    requires r < |rooms| && rooms[r].None?
    ensures Balanced(rooms, [guest], [], rooms[r := Some(guest)])
  {
    GuestsUpdate(rooms, r, Some(guest), |rooms|);
    assert Occupant(Some(guest)) == [guest];
  }

  lemma LeavingBalances<T>(rooms: seq<Option<T>>, r: nat)
    requires r < |rooms|
    ensures Balanced(rooms, [], Occupant(rooms[r]), rooms[r := None])
  {
    GuestsUpdate<T>(rooms, r, None, |rooms|);
  }

  lemma NothingBalances<T>(rooms: seq<Option<T>>)
    ensures Balanced(rooms, [], [], rooms)
  {
  }

  lemma BalancedStep<T>(rooms0: seq<Option<T>>, entered: seq<T>, left: seq<T>, rooms: seq<Option<T>>,
                        e: seq<T>, l: seq<T>, rooms': seq<Option<T>>)
    requires Balanced(rooms0, entered, left, rooms) && Balanced(rooms, e, l, rooms')
    ensures Balanced(rooms0, entered + e, left + l, rooms')
  {
    var a, b, c := Guests(rooms0), Guests(rooms), Guests(rooms');
    assert a + multiset(entered + e) == (a + multiset(entered)) + multiset(e);
    assert multiset(left + l) + c == multiset(left) + (multiset(l) + c);
  }

  lemma NextBalances<T>(op: Op<T>, h: House<T>, hasEventBase: bool)
    requires ListsFree(h.free, h.rooms)
    ensures Balanced(h.rooms, Entering(op, h), Leaving(op, h, hasEventBase), Next(op, h, hasEventBase).rooms)
  {
    if Entering(op, h) != [] {
      TakeRoom(h.free, h.rooms, op.guest);
      CheckinBalances(h.rooms, h.free[|h.free| - 1], op.guest);
    } else if Leaving(op, h, hasEventBase) != [] {
      LeavingBalances(h.rooms, op.room);
    } else {
      NothingBalances(h.rooms);
    }
  }

  /** One event of a run. A room that does not exist is not checked out, and a timer that is not pending
      does not fire. */
  method Apply<T>(hotel: Hotel<T>, op: Op<T>) returns (entered: seq<T>, left: seq<T>)
    requires hotel.Valid()
    modifies hotel, hotel.occupants, hotel.pending, hotel.unoccupiedRooms
    ensures hotel.Valid() && hotel.SameArrays(old(hotel.occupants), old(hotel.pending), old(hotel.unoccupiedRooms))
    ensures hotel.State() == Next(op, old(hotel.State()), hotel.hasEventBase)
    ensures entered == Entering(op, old(hotel.State())) && left == Leaving(op, old(hotel.State()), hotel.hasEventBase)
    ensures Balanced(old(hotel.occupants[..]), entered, left, hotel.occupants[..])
  {
    ghost var h := hotel.State();
    NextBalances(op, h, hotel.hasEventBase);
    entered, left := [], [];
    match op {
      case Checkin(guest) =>
        var room := hotel.Checkin(guest);
        if room.Some? {
          entered := [guest];
        }
      case Checkout(r) =>
        if r < hotel.numRooms {
          var occupant := hotel.Checkout(r);
          left := Occupant(occupant);
          assert occupant.None? ==> h.rooms[r := None] == h.rooms;
        }
      case TimerFires(r) =>
        if r < hotel.numRooms && hotel.pending[r] {
          var occupant := hotel.Evict(r);
          left := Occupant(occupant);
        }
    }
  }

  /** In every run of a new hotel, those who got a room are those who were handed back, by checkout or by
      eviction, and those who still have one: no guest is lost or handed back twice. */
  method Run<T>(hotel: Hotel<T>, ops: seq<Op<T>>) returns (entered: seq<T>, left: seq<T>)
    requires hotel.Valid() && forall r :: 0 <= r < hotel.numRooms ==> hotel.occupants[r].None?
    modifies hotel, hotel.occupants, hotel.pending, hotel.unoccupiedRooms
    ensures hotel.Valid()
    ensures (entered, left, hotel.State()) == Course(ops, old(hotel.State()), hotel.hasEventBase)
    ensures multiset(entered) == multiset(left) + Guests(hotel.occupants[..])
  {
    ghost var h, eventBase := hotel.State(), hotel.hasEventBase;
    ghost var all := Course(ops, h, eventBase);
    entered, left := [], [];
    NoGuests(h.rooms, |h.rooms|);
    assert ops[0..] == ops && [] + all.0 == all.0 && [] + all.1 == all.1;
    for i := 0 to |ops|
      invariant hotel.Valid() && hotel.SameArrays(old(hotel.occupants), old(hotel.pending), old(hotel.unoccupiedRooms))
      invariant Balanced(h.rooms, entered, left, hotel.occupants[..])
      invariant IsRest(all, entered, left, Course(ops[i..], hotel.State(), eventBase))
    {
      ghost var before := hotel.State();
      CourseStep(ops, i, before, eventBase, entered, left);
      var e, l := Apply(hotel, ops[i]);
      BalancedStep(h.rooms, entered, left, before.rooms, e, l, hotel.occupants[..]);
      entered, left := entered + e, left + l;
    }
    assert entered + [] == entered && left + [] == left;
  }

  /** The course of a run, put together from what has happened and what is still to come. */
  ghost predicate IsRest<T>(all: (seq<T>, seq<T>, House<T>), entered: seq<T>, left: seq<T>,
                            rest: (seq<T>, seq<T>, House<T>)) {
    all == (entered + rest.0, left + rest.1, rest.2)
  }
}
