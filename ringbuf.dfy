/**
 * The float ring buffer of main/ringbuf.c: fixed capacity, storage supplied by
 * the caller, a cursor on the most recently written slot, and NAN marking the
 * slots that were never written (here the Empty slot).
 *
 * The specification is the history of all puts. Slots(h, cap) is what the
 * storage holds after putting h into a fresh buffer, one put at a time; the
 * lemmas below give it in closed form: the first min(|h|, cap) slots hold the
 * last min(|h|, cap) puts (rotated), and the rest are empty.
 */
module RingBuffer {
  import opened FloatSort

  /** One slot of the backing storage: NAN (never written) or a sample. */
  datatype Slot = Empty | Full(value: real)

  /** How many slots are occupied after n puts: min(n, cap). */
  function Occupied(n: nat, cap: nat): nat {
    if n < cap then n else cap
  }

  /** One slot on from a cursor i below cap, wrapping to 0. */
  function Advance(i: nat, cap: nat): (j: nat)
    requires i < cap
    ensures j < cap
  {
    if i + 1 == cap then 0 else i + 1
  }

  /** Advance is the `(get_idx + 1) % dst_len` of ringbuf_put. */
  lemma AdvanceIsModulo(i: nat, cap: nat)
    requires i < cap
    ensures Advance(i, cap) == (i + 1) % cap
  {
  }

  /**
   * get_idx after n puts: `dst_len - 1` before the first put, so that the
   * first put lands in slot 0, then advanced one slot per put.
   */
  function GetIndex(n: nat, cap: nat): (i: nat)
    requires 1 <= cap
    ensures i < cap
  {
    if n == 0 then cap - 1 else Advance(GetIndex(n - 1, cap), cap)
  }

  /** The storage of a fresh buffer of capacity cap after putting h, in order. */
  function Slots(h: seq<real>, cap: nat): (slots: seq<Slot>)
    requires 1 <= cap
    ensures |slots| == cap
  {
    if h == [] then seq(cap, _ => Empty)
    else Slots(h[..|h| - 1], cap)[GetIndex(|h|, cap) := Full(h[|h| - 1])]
  }

  /** The last min(|h|, cap) puts, oldest first: what the buffer retains. */
  function Window(h: seq<real>, cap: nat): seq<real> {
    h[|h| - Occupied(|h|, cap)..]
  }

  /**
   * The retained puts in storage order: all of h while it has fewer than cap
   * entries; afterwards the window rotated so that the oldest retained put
   * sits in the slot the next put overwrites.
   */
  function Stored(h: seq<real>, cap: nat): (s: seq<real>)
    requires 1 <= cap
    ensures |s| == Occupied(|h|, cap)
  {
    if |h| < cap then h
    else
      var w := Window(h, cap);
      var r := GetIndex(|h| + 1, cap);
      w[cap - r..] + w[..cap - r]
  }

  /** Until the buffer wraps, the k-th put lands in slot k - 1. */
  lemma {:induction false} GetIndexBeforeWrap(n: nat, cap: nat)
    requires 1 <= n <= cap
    ensures GetIndex(n, cap) == n - 1
  {
    if n > 1 {
      GetIndexBeforeWrap(n - 1, cap);
    }
  }

  /** Once the buffer has wrapped, the position in h of the put that slot k holds. */
  function StoredPosition(n: nat, cap: nat, k: nat): (p: nat)
    requires 1 <= cap <= n && k < cap
    ensures p < n
  {
    var r := GetIndex(n + 1, cap);
    n - r + k - (if k < r then 0 else cap)
  }

  /**
   * One more put moves the put held by slot k one position on in h, except at
   * the cursor slot, which now holds the newest put.
   */
  lemma PositionStep(n: nat, cap: nat, k: nat)
    requires 1 <= cap <= n && k < cap
    ensures StoredPosition(n + 1, cap, k) == if k == GetIndex(n + 1, cap) then n else StoredPosition(n, cap, k)
  {
    var r := GetIndex(n + 1, cap);
    assert GetIndex(n + 2, cap) == Advance(r, cap);
  }

  /** Pointwise form of Stored once the buffer has wrapped. */
  lemma StoredAt(h: seq<real>, cap: nat, k: nat)
    requires 1 <= cap <= |h| && k < cap
    ensures Stored(h, cap)[k] == h[StoredPosition(|h|, cap, k)]
  {
    var w := Window(h, cap);
    var r := GetIndex(|h| + 1, cap);
    assert w == h[|h| - cap..];
    assert Stored(h, cap) == w[cap - r..] + w[..cap - r];
    if k < r {
      assert Stored(h, cap)[k] == w[cap - r + k];
    } else {
      assert Stored(h, cap)[k] == w[k - r];
    }
  }

  /** Until the buffer wraps, the retained puts are all the puts, in order. */
  lemma StoredBeforeWrap(h: seq<real>, cap: nat)
    requires 1 <= cap && |h| <= cap
    ensures Stored(h, cap) == h
  {
    if |h| == cap {
      GetIndexBeforeWrap(cap, cap);
      assert GetIndex(cap + 1, cap) == 0;
    }
  }

  /**
   * Once the buffer has wrapped, one more put changes the retained puts in
   * storage order at the cursor slot only.
   */
  lemma StoredStep(prev: seq<real>, item: real, cap: nat, k: nat)
    requires 1 <= cap <= |prev| && k < cap
    ensures Stored(prev + [item], cap)[k] == if k == GetIndex(|prev| + 1, cap) then item else Stored(prev, cap)[k]
  {
    var h := prev + [item];
    var n := |prev|;
    var r := GetIndex(n + 1, cap);
    var pos := StoredPosition(n + 1, cap, k);
    assert Stored(h, cap)[k] == h[pos] by {
      assert |h| == n + 1;
      StoredAt(h, cap, k);
    }
    assert pos == if k == r then n else StoredPosition(n, cap, k) by {
      PositionStep(n, cap, k);
    }
    if k != r {
      assert Stored(prev, cap)[k] == prev[pos] by {
        StoredAt(prev, cap, k);
      }
    }
  }

  /**
   * The prefix-occupancy layout: after the puts h, slot k holds the k-th
   * retained put in storage order if k < min(|h|, cap), and is empty otherwise.
   */
  lemma {:induction false} SlotsLayout(h: seq<real>, cap: nat, k: nat)
    requires 1 <= cap && k < cap
    ensures Slots(h, cap)[k] == if k < Occupied(|h|, cap) then Full(Stored(h, cap)[k]) else Empty
  {
    if h != [] {
      var n := |h| - 1;
      var prev := h[..n];
      SlotsLayout(prev, cap, k);
      var r := GetIndex(n + 1, cap);
      assert Slots(h, cap)[k] == if k == r then Full(h[n]) else Slots(prev, cap)[k];
      if n < cap {
        GetIndexBeforeWrap(n + 1, cap);
        StoredBeforeWrap(prev, cap);
        StoredBeforeWrap(h, cap);
        assert k < n ==> prev[k] == h[k];
      } else {
        assert h == prev + [h[n]];
        StoredStep(prev, h[n], cap, k);
      }
    }
  }

  /** The slot under the cursor holds the latest put, or is empty before any put. */
  lemma LatestAtGetIndex(h: seq<real>, cap: nat)
    requires 1 <= cap
    ensures Slots(h, cap)[GetIndex(|h|, cap)] == if h == [] then Empty else Full(h[|h| - 1])
  {
  }

  /** The occupied slots hold exactly the last min(|h|, cap) puts, as a multiset. */
  lemma StoredIsWindowPermutation(h: seq<real>, cap: nat)
    requires 1 <= cap
    ensures multiset(Stored(h, cap)) == multiset(Window(h, cap))
    ensures |Window(h, cap)| == Occupied(|h|, cap)
  {
    if |h| >= cap {
      var w := Window(h, cap);
      var r := GetIndex(|h| + 1, cap);
      assert w == w[..cap - r] + w[cap - r..];
      assert multiset(w) == multiset(w[..cap - r]) + multiset(w[cap - r..]);
    }
  }

  /**
   * The scan of ringbuf_getallsorted: copying slots up to the first empty one
   * (or to the end) yields exactly the retained puts in storage order, and as
   * many of them as there are occupied slots.
   */
  lemma CopiedPrefixIsStored(h: seq<real>, cap: nat, slots: seq<Slot>, copied: seq<real>)
    requires 1 <= cap && slots == Slots(h, cap) && |copied| <= cap
    requires forall k :: 0 <= k < |copied| ==> slots[k].Full? && copied[k] == slots[k].value
    requires |copied| < cap ==> slots[|copied|].Empty?
    ensures |copied| == Occupied(|h|, cap)
    ensures copied == Stored(h, cap)
  {
    var stored := Stored(h, cap);
    var i := |copied|;
    forall k | 0 <= k < cap
      ensures slots[k] == if k < |stored| then Full(stored[k]) else Empty
    {
      SlotsLayout(h, cap, k);
    }
    // The first slot at which the copy and the layout could disagree.
    var m := if i < |stored| then i else |stored|;
    if m < cap {
      assert slots[m].Full? <==> m < |stored|;
    }
  }

  /** Any ascending arrangement of the retained puts is the sorted window. */
  lemma SortedStoredIsSortedWindow(h: seq<real>, cap: nat, sorted: seq<real>)
    requires 1 <= cap
    requires Sorted(sorted) && multiset(sorted) == multiset(Stored(h, cap))
    ensures multiset(sorted) == multiset(Window(h, cap))
    ensures sorted == SortAscending(Window(h, cap))
  {
    StoredIsWindowPermutation(h, cap);
    SortedUnique(sorted, SortAscending(Window(h, cap)));
  }

  /** A ring buffer over caller-supplied storage (ringbuf_t). */
  class RingBuf {
    /** The caller's array; only data[..capacity] belongs to the buffer. */
    var data: array<Slot>
    var capacity: nat
    /** The slot written last. */
    var getIdx: nat
    /** Every item put so far, oldest first. */
    ghost var history: seq<real>

    ghost predicate Valid()
      reads this, data
    {
      1 <= capacity <= data.Length &&
      getIdx == GetIndex(|history|, capacity) &&
      data[..capacity] == Slots(history, capacity)
    }

    /**
     * ringbuf_init: marks the first dstLen slots of dst empty and sets the
     * cursor to dstLen - 1. dstLen must be at least 1: otherwise `dst_len - 1`
     * wraps around and every put divides by zero.
     */
    constructor (dst: array<Slot>, dstLen: nat)
      requires 1 <= dstLen <= dst.Length
      modifies dst
      ensures Valid()
      ensures data == dst && capacity == dstLen && history == []
      ensures getIdx == dstLen - 1
      ensures forall k :: 0 <= k < dstLen ==> dst[k] == Empty
      ensures forall k :: dstLen <= k < dst.Length ==> dst[k] == old(dst[k])
    {
      var i := 0;
      while i < dstLen
        invariant 0 <= i <= dstLen
        invariant forall k :: 0 <= k < i ==> dst[k] == Empty
        invariant forall k :: dstLen <= k < dst.Length ==> dst[k] == old(dst[k])
      {
        dst[i] := Empty;
        i := i + 1;
      }
      data := dst;
      capacity := dstLen;
      getIdx := dstLen - 1;
      history := [];
    }

    /**
     * ringbuf_put: advances the cursor one slot, modulo the capacity, and
     * overwrites that slot (the oldest one once the buffer is full) with item;
     * no other slot changes. lockTaken is the outcome of taking the mutex:
     * when it fails the put is skipped.
     */
    method Put(item: real, lockTaken: bool)
      requires Valid()
      modifies this`getIdx, this`history, data
      ensures Valid()
      ensures !lockTaken ==> getIdx == old(getIdx) && history == old(history) && data[..] == old(data[..])
      ensures lockTaken ==> getIdx == (old(getIdx) + 1) % capacity && history == old(history) + [item]
      ensures lockTaken ==> data[..] == old(data[..])[getIdx := Full(item)]
    {
      if !lockTaken {
        return;
      }
      AdvanceIsModulo(getIdx, capacity);
      getIdx := (getIdx + 1) % capacity;
      data[getIdx] := Full(item);
      history := history + [item];
      assert history[..|history| - 1] == old(history);
      assert data[..capacity] == old(data[..capacity])[getIdx := Full(item)];
    }

    /**
     * ringbuf_get: 1 and the most recently put item, or 0 when nothing has
     * been put yet (or the mutex could not be taken). On 0, `*dst` is not
     * written, so value is the dst passed in. Nothing in the buffer changes,
     * so repeated gets return the same result.
     */
    method Get(dst: real, lockTaken: bool) returns (count: nat, value: real)
      requires Valid()
      ensures count == if lockTaken && history != [] then 1 else 0
      ensures count == 1 ==> value == history[|history| - 1]
      ensures count == 0 ==> value == dst
    {
      if !lockTaken {
        return 0, dst;
      }
      LatestAtGetIndex(history, capacity);
      assert data[getIdx] == Slots(history, capacity)[getIdx];
      var getValue := data[getIdx];
      if getValue.Empty? {
        return 0, dst;
      }
      return 1, getValue.value;
    }

    /**
     * The copy loop of ringbuf_getallsorted: slots are copied into dst up to
     * the first empty one. By the prefix-occupancy layout that copies exactly
     * the retained puts in storage order; dst beyond them is left as it was.
     */
    method CopyOccupied(dst: array<real>) returns (count: nat)
      requires Valid()
      requires capacity <= dst.Length
      modifies dst
      ensures count == Occupied(|history|, capacity)
      ensures dst[..count] == Stored(history, capacity)
      ensures forall k :: count <= k < dst.Length ==> dst[k] == old(dst[k])
    {
      count := 0;
      while count < capacity
        invariant 0 <= count <= capacity
        invariant forall k :: 0 <= k < count ==> data[k].Full? && dst[k] == data[k].value
        invariant forall k :: count <= k < dst.Length ==> dst[k] == old(dst[k])
      {
        if data[count].Empty? {
          break;
        }
        dst[count] := data[count].value;
        count := count + 1;
      }
      CopiedPrefixIsStored(history, capacity, data[..capacity], dst[..count]);
    }

    /**
     * ringbuf_getallsorted: copies the occupied slots into dst, sorts what it
     * copied ascending, and returns how many there were: min(puts, capacity),
     * the copied values being exactly the last min(puts, capacity) items put.
     * The buffer is not modified, and dst beyond the count is left as it was.
     */
    method GetAllSorted(dst: array<real>) returns (count: nat)
      requires Valid()
      requires capacity <= dst.Length
      modifies dst
      ensures count == Occupied(|history|, capacity)
      ensures Sorted(dst[..count])
      ensures multiset(dst[..count]) == multiset(Window(history, capacity))
      ensures dst[..count] == SortAscending(Window(history, capacity))
      ensures forall k :: count <= k < dst.Length ==> dst[k] == old(dst[k])
    {
      count := CopyOccupied(dst);
      ghost var beyond := dst[count..];
      SortPrefix(dst, count);
      SortedStoredIsSortedWindow(history, capacity, dst[..count]);
      forall k | count <= k < dst.Length ensures dst[k] == old(dst[k]) {
        assert dst[k] == beyond[k - count];
      }
    }
  }
}
