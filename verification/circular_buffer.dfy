/** A fixed-capacity ring that overwrites its oldest item; indices wrap with a mask, so capacities are powers of two. */
module RingBuffer {
  import opened Words

  ghost predicate IsPowerOfTwo(c: nat) {
    exists k: nat :: c == Pow2(k)
  }

  /** The constructor's test for a power of two. */
  lemma {:induction false} PowerOfTwoTest(c: nat)
    ensures IsPowerOfTwo(c) <==> c > 0 && And(c, c - 1) == 0
  {
    if c > 0 && And(c, c - 1) == 0 {
      var k := ExponentOf(c);
    } else if IsPowerOfTwo(c) {
      var k: nat :| c == Pow2(k);
      PowerPassesTest(k);
    }
  }

  lemma {:induction false} ExponentOf(c: nat) returns (k: nat)
    requires c > 0 && And(c, c - 1) == 0
    ensures c == Pow2(k)
  {
    if c % 2 == 1 {
      AndSelf(c / 2);
      k := 0;
    } else {
      assert (c - 1) / 2 == c / 2 - 1;
      k := ExponentOf(c / 2);
      k := k + 1;
    }
  }

  lemma {:induction false} AndSelf(x: nat)
    ensures And(x, x) == x
  {
    if x > 0 {
      AndSelf(x / 2);
    }
  }

  lemma {:induction false} PowerPassesTest(k: nat)
    ensures And(Pow2(k), Pow2(k) - 1) == 0
  {
    if k > 0 {
      assert (Pow2(k) - 1) / 2 == Pow2(k - 1) - 1;
      PowerPassesTest(k - 1);
    }
  }

  /** Wrapping with the mask is the remainder by the capacity. */
  lemma {:induction false} MaskIsRemainder(x: nat, capacity: nat)
    requires IsPowerOfTwo(capacity)
    ensures capacity > 0 && And(x, capacity - 1) == x % capacity
  {
    hide And;
    var k: nat :| capacity == Pow2(k);
    AndOnes(x, k);
    ShiftsAreArithmetic(x, k);
  }

  /** The last `n` items of `s`, or all of them. */
  function LastN<T>(s: seq<T>, n: nat): (r: seq<T>)
    ensures |r| == if |s| < n then |s| else n
  {
    if |s| < n then s else s[|s| - n..]
  }

  datatype Created<T(0)> = Ring(ring: CircularBuffer<T>) | InvalidArgument

  class CircularBuffer<T(0)> {
    const buffer: array<T>
    const capacity: nat
    const mask: nat
    var head: nat
    var tail: nat
    var full: bool
    /** Every item written since construction. */
    ghost var written: seq<T>

    ghost predicate Valid()
      reads this, buffer
    {
      && IsPowerOfTwo(capacity) && capacity > 0
      && buffer.Length == capacity && mask == capacity - 1
      && tail == |written| % capacity
      && full == (|written| >= capacity)
      && head == (if full then tail else 0)
      && Stored(buffer[..], written, capacity)
    }

    constructor (size: nat)
      requires IsPowerOfTwo(size) && size > 0
      ensures Valid() && written == [] && capacity == size && fresh(buffer)
    {
      hide IsPowerOfTwo;
      SmallRemainder(0, size);
      buffer := new T[size];
      capacity := size;
      mask := size - 1;
      head, tail, full := 0, 0, false;
      written := [];
    }

    /** Construction with the check that throws. */
    static method Create(size: nat) returns (r: Created<T>)
      ensures r.InvalidArgument? <==> !IsPowerOfTwo(size)
      ensures r.Ring? ==> fresh(r.ring) && fresh(r.ring.buffer) && r.ring.Valid()
      ensures r.Ring? ==> r.ring.written == [] && r.ring.capacity == size
    {
      PowerOfTwoTest(size);
      if size == 0 || And(size, size - 1) != 0 {
        return InvalidArgument;
      }
      var ring := new CircularBuffer<T>(size);
      r := Ring(ring);
    }

    method Advance(index: nat) returns (next: nat)
      requires IsPowerOfTwo(capacity) && mask == capacity - 1 && index < capacity
      ensures next == if index + 1 >= capacity then 0 else index + 1
    {
      hide And, Stored, IsPowerOfTwo;
      next := And(index + 1, mask);
      MaskIsRemainder(index + 1, capacity);
      NextIndex(index, capacity);
    }

    /** The indices for one more item, whose slot is already written. */
    method CommitUnlocked(ghost item: T)
      requires IsPowerOfTwo(capacity) && capacity > 0 && buffer.Length == capacity && mask == capacity - 1
      requires tail == |written| % capacity && full == (|written| >= capacity) && head == (if full then tail else 0)
      requires Stored(buffer[..], written + [item], capacity)
      modifies this
      ensures Valid() && written == old(written) + [item]
    {
      hide Stored, IsPowerOfTwo;
      OneMore(|written|, capacity);
      if full {
        head := Advance(head);
      }
      tail := Advance(tail);
      full := tail == head;
      written := written + [item];
    }

    method Enqueue(item: T)
      requires Valid()
      modifies this, buffer
      ensures Valid() && written == old(written) + [item]
    {
      hide And, Stored, IsPowerOfTwo;
      StoreNext(buffer[..], written, capacity, item);
      buffer[tail] := item;
      CommitUnlocked(item);
    }

    /** Writes the next slot in place: `write` sees the item it overwrites. */
    method Emplace(write: T -> T)
      requires Valid()
      modifies this, buffer
      ensures Valid() && written == old(written) + [write(old(buffer[tail]))]
    {
      hide And, Stored, IsPowerOfTwo;
      var item := write(buffer[tail]);
      StoreNext(buffer[..], written, capacity, item);
      buffer[tail] := item;
      CommitUnlocked(item);
    }

    method IsEmpty() returns (b: bool)
      requires Valid()
      ensures b <==> written == []
    {
      if |written| < capacity {
        SmallRemainder(|written|, capacity);
      }
      b := !full && head == tail;
    }

    method IsFull() returns (b: bool)
      requires Valid()
      ensures b <==> |written| >= capacity
    {
      b := full;
    }

    method Size() returns (n: int)
      requires Valid()
      ensures n == |LastN(written, capacity)|
    {
      if full {
        return capacity;
      }
      SmallRemainder(|written|, capacity);
      if tail >= head {
        return tail - head;
      }
      return capacity - head + tail;
    }

    /** Oldest first, without consuming anything. */
    method Snapshot() returns (items: seq<T>)
      requires Valid()
      ensures items == LastN(written, capacity)
    {
      hide And, Stored, IsPowerOfTwo;
      items := [];
      var empty := IsEmpty();
      if empty {
        return;
      }
      ghost var start := |written| - |LastN(written, capacity)|;
      var index := head;
      SnapshotStart(written, capacity, head, tail, full);
      while true
        invariant start + |items| < |written| && index == (start + |items|) % capacity
        invariant items == written[start..start + |items|]
        decreases |written| - |items|
      {
        ghost var k := start + |items|;
        ReadStored(buffer[..], written, capacity, k);
        items := items + [buffer[index]];
        NextIndex(k, capacity);
        index := Advance(index);
        if index == tail {
          SameRemainder(k + 1, |written|, capacity);
          break;
        }
        assert k + 1 != |written|;
      }
    }
  }

  /** Slot `i % capacity` holds item `i` of everything written, for the last `capacity` items. */
  ghost predicate Stored<T>(slots: seq<T>, written: seq<T>, capacity: nat) {
    && capacity > 0 && |slots| == capacity
    && forall i | 0 <= i < |written| && |written| <= i + capacity :: slots[i % capacity] == written[i]
  }

  lemma {:induction false} SmallRemainder(n: nat, m: nat)
    requires n < m
    ensures n % m == n
  {
  }

  lemma {:induction false} OneMore(n: nat, m: nat)
    requires m > 0
    ensures n % m < m && (n + 1) % m == if n % m + 1 >= m then 0 else n % m + 1
    ensures n < m ==> n % m == n
  {
    NextIndex(n, m);
    if n < m {
      SmallRemainder(n, m);
    }
  }

  lemma {:induction false} StoreNext<T>(slots: seq<T>, written: seq<T>, capacity: nat, item: T)
    requires Stored(slots, written, capacity)
    ensures Stored(slots[|written| % capacity := item], written + [item], capacity)
  {
    var n := |written|;
    forall i | 0 <= i < n + 1 && n + 1 <= i + capacity
      ensures slots[n % capacity := item][i % capacity] == (written + [item])[i]
    {
      if i < n && i % capacity == n % capacity {
        SameRemainder(i, n, capacity);
      }
    }
  }

  lemma ReadStored<T>(slots: seq<T>, written: seq<T>, capacity: nat, i: nat)
    requires Stored(slots, written, capacity) && i < |written| <= i + capacity
    ensures slots[i % capacity] == written[i]
  {
  }

  lemma {:induction false} SnapshotStart<T>(written: seq<T>, capacity: nat, head: nat, tail: nat, full: bool)
    requires capacity > 0 && tail == |written| % capacity && full == (|written| >= capacity)
    requires head == if full then tail else 0
    ensures head == (|written| - |LastN(written, capacity)|) % capacity
  {
    if full {
      var n := |written| - capacity;
      var q, r := n / capacity, n % capacity;
      assert n == q * capacity + r;
      assert |written| == (q + 1) * capacity + r;
      DivisionUnique(|written|, capacity, q + 1, r);
    }
  }
}
