/** Ring of pointers that displaces its oldest item when full (src/class/ww_ring_buffer.c). */
module RingBuffer {
  import opened Wrappers

  /** How far slot `i` lies behind the tail. */
  function Behind(i: nat, tail: nat, size: nat): nat
    requires i < size && tail < size
  {
    if tail <= i then i - tail else i - tail + size
  }

  class Ring<T> {
    var head: nat
    var tail: int
    const size: nat
    const addr: array<Option<T>>
    ghost var Items: seq<T>  // oldest first

    /** The items stand from the tail on, up to the head; every other slot is NULL. */
    ghost predicate Valid()
      reads this, addr
    {
      && size == addr.Length && -1 <= tail
      && (if size == 0 then head == 0 && tail == -1 else head < size && tail < size)
      && |Items| <= size
      && (tail == -1 <==> Items == [])
      && (tail == -1 ==> forall i :: 0 <= i < size ==> addr[i].None?)
      && (tail != -1 ==> head == (if tail + |Items| < size then tail + |Items| else tail + |Items| - size))
      && (tail != -1 ==> forall i :: 0 <= i < size ==>
           addr[i] == var k := Behind(i, tail, size); if k < |Items| then Some(Items[k]) else None)
    }

    /** `ww_ring_buffer_init` */
    constructor (size: nat)
      ensures Valid() && fresh(addr) && Items == [] && this.size == size
    {
      head, tail := 0, -1;
      this.size := size;
      addr := new Option<T>[size](_ => None);
      Items := [];
    }

    /** `ww_ring_buffer_push`: returns the displaced oldest item when the ring was full. A ring without slots has
        no place for the item. */
    method Push(ptr: T) returns (p: Option<T>)
      requires Valid() && 0 < size
      modifies this, addr
      ensures Valid()
      ensures |old(Items)| < size ==> p == None && Items == old(Items) + [ptr]
      ensures |old(Items)| == size ==> p == Some(old(Items)[0]) && Items == old(Items)[1..] + [ptr]
    {
      p := None;
      if addr[head].Some? {
        p := addr[head];
        if tail == size - 1 {
          tail := 0;
        } else {
          tail := head + 1;
        }
        Items := Items[1..];
      }
      addr[head] := Some(ptr);
      if tail < 0 {
        tail := head;
      }
      if head == size - 1 {
        head := 0;
      } else {
        head := head + 1;
      }
      Items := Items + [ptr];
    }

    /** `ww_ring_buffer_pop`: the oldest item, or NULL when there is none. */
    method Pop() returns (p: Option<T>)
      requires Valid()
      modifies this, addr
      ensures Valid()
      ensures old(Items) == [] ==> p == None && Items == []
      ensures old(Items) != [] ==> p == Some(old(Items)[0]) && Items == old(Items)[1..]
    {
      p := None;
      if tail != -1 {
        p := addr[tail];
        addr[tail] := None;
        if tail == size - 1 {
          tail := 0;
        } else {
          tail := tail + 1;
        }
        if tail == head {
          tail := -1;
        }
        Items := Items[1..];
      }
    }

    /** `ww_ring_buffer_poke`: the `i`-th oldest item or NULL; a negative index gives the newest. */
    method Poke(i: int) returns (p: Option<T>)
      requires Valid()
      ensures p == if Items == [] then None
                   else if i < 0 then Some(Items[|Items| - 1])
                   else if i < |Items| then Some(Items[i]) else None
    {
      if size <= i || tail == -1 {
        return None;
      } else if i < 0 {
        if head == 0 {
          return addr[size - 1];
        } else {
          return addr[head - 1];
        }
      } else {
        var offset := tail + i;
        if size <= offset {
          offset := offset - size;
        }
        return addr[offset];
      }
    }

    /** One operation of a run. */
    method Apply(op: Op<T>) returns (reply: Option<T>)
      requires Valid() && (op.Push? ==> 0 < size)
      modifies this, addr
      ensures Valid()
      ensures Items == Effect(size, old(Items), op) && reply == Answer(size, old(Items), op)
    {
      match op {
        case Push(x) => reply := Push(x);
        case Pop => reply := Pop();
        case Poke(i) => reply := Poke(i);
      }
    }
  }

  // ------------------------------------------------------------------------
  // Whole runs: a bounded queue that drops its oldest item
  // ------------------------------------------------------------------------

  datatype Op<T> = Push(x: T) | Pop | Poke(i: int)

  function Effect<T>(size: nat, q: seq<T>, op: Op<T>): seq<T> {
    match op
    case Push(x) => if |q| < size || q == [] then q + [x] else q[1..] + [x]
    case Pop => if q == [] then q else q[1..]
    case Poke(_) => q
  }

  function Answer<T>(size: nat, q: seq<T>, op: Op<T>): Option<T> {
    if q == [] then None
    else match op
      case Push(_) => if |q| < size then None else Some(q[0])
      case Pop => Some(q[0])
      case Poke(i) => if i < 0 then Some(q[|q| - 1]) else if i < |q| then Some(q[i]) else None
  }

  /** The queue after a run, and what the caller was told on the way. */
  function Final<T>(size: nat, q: seq<T>, ops: seq<Op<T>>): seq<T>
    decreases |ops|
  {
    if ops == [] then q else Final(size, Effect(size, q, ops[0]), ops[1..])
  }

  function Answers<T>(size: nat, q: seq<T>, ops: seq<Op<T>>): (r: seq<Option<T>>)
    ensures |r| == |ops|
    decreases |ops|
  {
    if ops == [] then [] else [Answer(size, q, ops[0])] + Answers(size, Effect(size, q, ops[0]), ops[1..])
  }

  /** The items that went in by pushing, in order. */
  function Pushed<T>(ops: seq<Op<T>>): seq<T> {
    if ops == [] then [] else (if ops[0].Push? then [ops[0].x] else []) + Pushed(ops[1..])
  }

  /** The items that pushes displaced and pops returned, in order. */
  function Returned<T>(ops: seq<Op<T>>, replies: seq<Option<T>>): seq<T>
    requires |replies| == |ops|
  {
    if ops == [] then []
    else (if !ops[0].Poke? && replies[0].Some? then [replies[0].value] else []) + Returned(ops[1..], replies[1..])
  }

  /** First in, first out, and nothing is lost: what came out, then what is left, is what was there and what
      went in, in the same order. */
  lemma {:induction false} FirstInFirstOut<T>(size: nat, q: seq<T>, ops: seq<Op<T>>)
    ensures Returned(ops, Answers(size, q, ops)) + Final(size, q, ops) == q + Pushed(ops)
    decreases |ops|
  {
    if ops == [] {
      assert q + [] == q;
    } else {
      var op, q' := ops[0], Effect(size, q, ops[0]);
      var out := if !op.Poke? && Answer(size, q, op).Some? then [Answer(size, q, op).value] else [];
      var into := if op.Push? then [op.x] else [];
      assert out + q' == q + into;
      FirstInFirstOut(size, q', ops[1..]);
      var replies := Answers(size, q, ops);
      assert replies[1..] == Answers(size, q', ops[1..]);
      OneMore(out, q', q, into, Returned(ops[1..], replies[1..]), Final(size, q', ops[1..]), Pushed(ops[1..]));
    }
  }

  lemma OneMore<T>(out: seq<T>, q': seq<T>, q: seq<T>, into: seq<T>, returned: seq<T>, final: seq<T>, pushed: seq<T>)
    requires out + q' == q + into && returned + final == q' + pushed
    ensures (out + returned) + final == q + (into + pushed)
  {
    assert (out + returned) + final == out + (returned + final) == (out + q') + pushed == q + (into + pushed);
  }

  lemma RunStep<T>(size: nat, q: seq<T>, ops: seq<Op<T>>, i: nat, replies: seq<Option<T>>)
    requires i < |ops|
    ensures replies + Answers(size, q, ops[i..]) ==
      replies + [Answer(size, q, ops[i])] + Answers(size, Effect(size, q, ops[i]), ops[i + 1..])
    ensures Final(size, q, ops[i..]) == Final(size, Effect(size, q, ops[i]), ops[i + 1..])
  {
    assert ops[i..][0] == ops[i] && ops[i..][1..] == ops[i + 1..];
  }

  /** Any run on a new ring answers as that queue does; one without slots is only popped and poked. */
  method Run<T>(size: nat, ops: seq<Op<T>>) returns (replies: seq<Option<T>>, ghost left: seq<T>)
    requires 0 < size || forall i :: 0 <= i < |ops| ==> !ops[i].Push?
    ensures replies == Answers(size, [], ops) && left == Final(size, [], ops)
    ensures |replies| == |ops| && Returned(ops, replies) + left == Pushed(ops) && |left| <= size
  {
    var ring := new Ring<T>(size);
    replies := [];
    for i := 0 to |ops|
      invariant ring.Valid() && fresh(ring) && fresh(ring.addr) && ring.size == size
      invariant replies + Answers(size, ring.Items, ops[i..]) == Answers(size, [], ops)
      invariant Final(size, ring.Items, ops[i..]) == Final(size, [], ops)
    {
      RunStep(size, ring.Items, ops, i, replies);
      var reply := ring.Apply(ops[i]);
      replies := replies + [reply];
    }
    left := ring.Items;
    FirstInFirstOut(size, [], ops);
  }
}
