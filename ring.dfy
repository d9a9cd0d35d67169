/** The fixed-size log both renderers keep with `arr[idx % N] = x; idx++`:
    a preallocated array of `N` slots and a write counter that only grows.
    Once more than `N` values have been written, each new value overwrites
    the slot of the value written `N` writes earlier. */
module Rings {
  import opened Media

  /** A positive multiple of a positive number is at least that number. */
  lemma {:induction false} MulAtLeast(x: int, n: int)
    requires 1 <= x && 0 < n
    ensures n <= x * n
    decreases x
  {
    if x > 1 {
      MulAtLeast(x - 1, n);
      assert x * n == (x - 1) * n + n;
    }
  }

  /** Two write positions less than `n` apart fall in different slots. */
  lemma {:induction false} ModDistinct(i: nat, j: nat, n: nat)
    requires 0 < n && i < j < i + n
    ensures i % n != j % n
  {
    if i % n == j % n {
      var d := j / n - i / n;
      assert j - i == d * n by {
        assert i == (i / n) * n + i % n;
        assert j == (j / n) * n + j % n;
      }
      if 1 <= d {
        MulAtLeast(d, n);
      }
    }
  }

  /** Division with remainder is unique. */
  lemma {:induction false} ModUnique(a: int, q: int, r: int, n: int)
    requires 0 < n && 0 <= r < n && a == q * n + r
    ensures a % n == r
  {
    var d := q - a / n;
    assert d * n == a % n - r by {
      assert a == (a / n) * n + a % n;
    }
    if 1 <= d {
      MulAtLeast(d, n);
    } else if d <= -1 {
      MulAtLeast(-d, n);
    }
  }

  /** A position below `n` is its own slot. */
  lemma ModSmall(i: nat, n: nat)
    requires i < n
    ensures i % n == i
  {
  }

  /** The last `n` values of `w` in the order their slots hold them once
      the ring has wrapped: the value written at position `i` sits in slot
      `i % n`, so the oldest ones start at slot `|w| % n`. */
  function SlotOrder<T>(w: seq<T>, n: nat): (r: seq<T>)
    requires 0 < n <= |w|
    ensures |r| == n
    ensures multiset(r) == multiset(w[|w| - n..])
  {
    var last, k := w[|w| - n..], |w| % n;
    assert last == last[..n - k] + last[n - k..];
    last[n - k..] + last[..n - k]
  }

  class Ring<T> {
    const slots: array<Option<T>>
    /** How many values were ever written (`delayInx`, `chunkIdx`). */
    var count: nat
    /** Every value ever written, oldest first. */
    ghost var Written: seq<T>

    /** Slot `i % N` holds the `i`-th written value for each of the last `N`
        writes, and the slots not yet reached are still empty. */
    ghost predicate Valid()
      reads this, slots
    {
      0 < slots.Length &&
      count == |Written| &&
      (forall i {:trigger slots[i % slots.Length]} :: 0 <= i < |Written| && |Written| <= i + slots.Length ==>
         slots[i % slots.Length] == Some(Written[i])) &&
      (forall j :: count <= j < slots.Length ==> slots[j] == None)
    }

    /** `new Array(N).fill(null)`, with the counter at zero. */
    constructor (n: nat)
      requires 0 < n
      ensures Valid() && fresh(slots) && slots.Length == n
      ensures Written == []
    {
      slots := new Option<T>[n](_ => None);
      count := 0;
      Written := [];
    }

    /** `slots[count % N] = x; count++`. */
    method Put(x: T)
      requires Valid()
      modifies this, slots
      ensures Valid()
      ensures Written == old(Written) + [x]
      ensures slots[old(count) % slots.Length] == Some(x)
    {
      var n := slots.Length;
      forall i | 0 <= i < count && count < i + n
        ensures i % n != count % n
      {
        ModDistinct(i, count, n);
      }
      if count < n {
        ModSmall(count, n);
      }
      slots[count % n] := Some(x);
      count := count + 1;
      Written := Written + [x];
    }
  }

  /** Once at least `N` values were written, slot `j` holds the `j`-th
      value of `SlotOrder`. */
  lemma SlotsHoldSlotOrder<T>(ring: Ring<T>)
    requires ring.Valid() && ring.slots.Length <= ring.count
    ensures forall j :: 0 <= j < ring.slots.Length ==>
      ring.slots[j] == Some(SlotOrder(ring.Written, ring.slots.Length)[j])
  {
    var w, n := ring.Written, ring.slots.Length;
    var k := |w| % n;
    var order := SlotOrder(w, n);
    forall j | 0 <= j < n
      ensures ring.slots[j] == Some(order[j])
    {
      var q := |w| / n;
      assert |w| == q * n + k;
      if j < k {
        var i := |w| - k + j;
        ModUnique(i, q, j, n);
        assert order[j] == w[i];
      } else {
        var i := |w| - k - n + j;
        ModUnique(i, q - 1, j, n);
        assert order[j] == w[i];
      }
    }
  }
}
