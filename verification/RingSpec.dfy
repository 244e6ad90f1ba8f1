/** The ten-slot overwriting ring in closed form: what the slots hold after any list of additions. */
module RingSpec {
  import opened ByteStreams

  const CAPACITY: nat := 10 // AESDCHAR_MAX_WRITE_OPERATIONS_SUPPORTED

  /** How many of `n` additions are still held. */
  function Count(n: nat): nat {
    if n < CAPACITY then n else CAPACITY
  }

  /** The slot of the oldest held addition. */
  function OldestSlot(n: nat): nat {
    if n < CAPACITY then 0 else n % CAPACITY
  }

  /** How one addition moves the two offsets, and when they meet. */
  lemma OffsetsAdvance(n: nat)
    ensures (n % CAPACITY + 1) % CAPACITY == (n + 1) % CAPACITY
    ensures n >= CAPACITY ==>
              (OldestSlot(n) + 1) % CAPACITY == OldestSlot(n + 1) == (n + 1) % CAPACITY
    ensures n < CAPACITY ==>
              OldestSlot(n + 1) == OldestSlot(n) && ((n + 1) % CAPACITY == OldestSlot(n) <==> n + 1 == CAPACITY)
  {
  }

  /** Slot visited by a walk from the oldest slot after `steps` steps. */
  function WalkSlot(n: nat, steps: nat): (i: nat)
    ensures i < CAPACITY
  {
    (OldestSlot(n) + steps) % CAPACITY
  }

  /** How many slots the search visits when it finds nothing: all ten when the ring is empty. */
  function WalkLength(n: nat): nat {
    if n == 0 then CAPACITY else Count(n)
  }

  /** Coming back to slot `r` takes ten steps. */
  lemma StepsRound(r: nat, steps: nat)
    requires r < CAPACITY && steps < CAPACITY
    ensures ((r + steps) % CAPACITY + 1) % CAPACITY == (r + steps + 1) % CAPACITY
    ensures (r + steps + 1) % CAPACITY == r <==> steps + 1 == CAPACITY
  {
    assert (r + steps + 1) % CAPACITY == if r + steps + 1 < CAPACITY then r + steps + 1 else r + steps + 1 - CAPACITY;
  }

  /** The loop condition of the search stops the walk exactly after WalkLength slots. */
  lemma WalkAdvances(n: nat, steps: nat)
    requires steps < WalkLength(n)
    ensures (WalkSlot(n, steps) + 1) % CAPACITY == WalkSlot(n, steps + 1)
    ensures var index := WalkSlot(n, steps + 1);
            (index != n % CAPACITY || n >= CAPACITY) && index != OldestSlot(n) <==> steps + 1 < WalkLength(n)
  {
    StepsRound(OldestSlot(n), steps);
  }

  /** The additions still held, oldest first. */
  function Visible<T>(added: seq<T>): seq<T> {
    var n := |added|;
    seq(Count(n), i requires 0 <= i < Count(n) => added[n - Count(n) + i])
  }

  lemma AllVisible<T>(added: seq<T>)
    requires |added| <= CAPACITY
    ensures Visible(added) == added
  {
  }

  /** The additions no longer held, oldest first. */
  function Evicted<T>(added: seq<T>): seq<T> {
    added[..|added| - Count(|added|)]
  }

  /** The latest of the additions `0..n` whose number is congruent to `i`. */
  function Latest(n: nat, i: nat): (k: nat)
    requires i < CAPACITY && i < n
    ensures k < n && k % CAPACITY == i
    ensures n - k <= CAPACITY
  {
    n - 1 - (n - 1 - i) % CAPACITY
  }

  /** Raw slot order: slot `i` holds the latest addition congruent to `i`, or `blank`. */
  function Slots<T>(added: seq<T>, blank: T): seq<T> {
    seq(CAPACITY, i requires 0 <= i < CAPACITY => if i < |added| then added[Latest(|added|, i)] else blank)
  }

  /** Addition number `n` is the latest of its class; the other classes are as before. */
  lemma LatestAdvances(n: nat, i: nat)
    requires i < CAPACITY && i <= n
    ensures i == n % CAPACITY ==> Latest(n + 1, i) == n
    ensures i != n % CAPACITY ==> i < n && Latest(n + 1, i) == Latest(n, i)
  {
    if i != n % CAPACITY {
      var d := (n - 1 - i) % CAPACITY;
      assert d != CAPACITY - 1;
      assert (n - i) % CAPACITY == d + 1;
    }
  }

  /** Storing addition number `n` in slot `n % 10` is all that an addition does to the slots. */
  lemma SlotsAppend<T>(added: seq<T>, blank: T, e: T)
    ensures Slots(added + [e], blank) == Slots(added, blank)[|added| % CAPACITY := e]
  {
    forall i | 0 <= i < CAPACITY
      ensures Slots(added + [e], blank)[i] == Slots(added, blank)[|added| % CAPACITY := e][i]
    {
      if i <= |added| {
        LatestAdvances(|added|, i);
      }
    }
  }

  /** The overwriting queue: append, and drop the oldest when ten were held. */
  lemma VisibleAppend<T>(added: seq<T>, e: T)
    ensures Visible(added + [e])
         == (if |added| < CAPACITY then Visible(added) else Visible(added)[1..]) + [e]
    ensures Evicted(added + [e])
         == (if |added| < CAPACITY then Evicted(added) else Evicted(added) + [Visible(added)[0]])
  {
  }

  /** The addition in the slot that a walk reaches after `j` steps is the `j`-th oldest held. */
  lemma LatestOnWalk(n: nat, j: nat)
    requires j < Count(n)
    ensures WalkSlot(n, j) < n && Latest(n, WalkSlot(n, j)) == n - Count(n) + j
  {
    var r := OldestSlot(n);
    assert WalkSlot(n, j) == if r + j < CAPACITY then r + j else r + j - CAPACITY;
  }

  /** Walking the slots from the oldest, modulo ten, visits the held additions oldest first. */
  lemma SlotInLogicalOrder<T>(added: seq<T>, blank: T, j: nat)
    requires j < Count(|added|)
    ensures Slots(added, blank)[WalkSlot(|added|, j)] == Visible(added)[j]
  {
    LatestOnWalk(|added|, j);
  }

  /** The slot that the next addition takes from a full ring holds the oldest one. */
  lemma OldestIsOverwritten<T>(added: seq<T>, blank: T)
    requires |added| >= CAPACITY
    ensures Slots(added, blank)[|added| % CAPACITY] == Visible(added)[0]
  {
    SlotInLogicalOrder(added, blank, 0);
    assert WalkSlot(|added|, 0) == |added| % CAPACITY;
  }

  /** The logical position of the addition in slot `i`; inverse of the walk above. */
  function LogicalIndex(n: nat, i: nat): (j: nat)
    requires i < CAPACITY && i < n
    ensures j < Count(n)
    ensures WalkSlot(n, j) == i
  {
    (i + CAPACITY - OldestSlot(n)) % CAPACITY
  }

  lemma SlotIsVisible<T>(added: seq<T>, blank: T, i: nat)
    requires i < CAPACITY && i < |added|
    ensures Slots(added, blank)[i] == Visible(added)[LogicalIndex(|added|, i)]
  {
    SlotInLogicalOrder(added, blank, LogicalIndex(|added|, i));
  }

  lemma SlotsPadded<T>(added: seq<T>, blank: T)
    requires |added| <= CAPACITY
    ensures Slots(added, blank) == added + seq(CAPACITY - |added|, _ => blank)
  {
    forall i | 0 <= i < |added|
      ensures Slots(added, blank)[i] == added[i]
    {
      assert Latest(|added|, i) == i;
    }
  }

  /** Of a full ring, slot `i` holds the addition that many places behind the one in slot 0. */
  lemma LogicalIndexRotated(n: nat, i: nat)
    requires n >= CAPACITY && i < CAPACITY
    ensures var r := n % CAPACITY;
            LogicalIndex(n, i) == if i < r then CAPACITY - r + i else i - r
  {
  }

  lemma SlotsRotated<T>(added: seq<T>, blank: T)
    requires |added| >= CAPACITY
    ensures var r := |added| % CAPACITY;
            Slots(added, blank) == Visible(added)[CAPACITY - r..] + Visible(added)[..CAPACITY - r]
  {
    var r := |added| % CAPACITY;
    forall i | 0 <= i < CAPACITY
      ensures Slots(added, blank)[i] == Visible(added)[if i < r then CAPACITY - r + i else i - r]
    {
      SlotIsVisible(added, blank, i);
      LogicalIndexRotated(|added|, i);
    }
  }

  /** Raw order is logical order rotated, padded with blanks while the ring is not full. */
  lemma SlotsRotation<T>(added: seq<T>, blank: T)
    ensures |added| <= CAPACITY ==>
              Slots(added, blank) == added + seq(CAPACITY - |added|, _ => blank)
    ensures |added| >= CAPACITY ==>
              var r := |added| % CAPACITY;
              Slots(added, blank) == Visible(added)[CAPACITY - r..] + Visible(added)[..CAPACITY - r]
  {
    if |added| <= CAPACITY {
      SlotsPadded(added, blank);
    }
    if |added| >= CAPACITY {
      SlotsRotated(added, blank);
    }
  }

  /** The same rotation, seen in the sizes of byte commands. */
  lemma SizesRotation(log: seq<Bytes>)
    ensures var raw, live := Sizes(Slots(log, [])), Sizes(Visible(log));
            var cut := CAPACITY - |log| % CAPACITY;
            && (|log| <= CAPACITY ==> |live| == |log| && raw == live + seq(CAPACITY - |log|, _ => 0))
            && (|log| >= CAPACITY ==> |live| == CAPACITY && raw == live[cut..] + live[..cut])
  {
    SlotsRotation(log, []);
    var raw, live := Sizes(Slots(log, [])), Sizes(Visible(log));
    if |log| <= CAPACITY {
      assert raw == live + seq(CAPACITY - |log|, _ => 0);
    }
    if |log| >= CAPACITY {
      var cut := CAPACITY - |log| % CAPACITY;
      assert raw == live[cut..] + live[..cut];
    }
  }

  lemma RotatedSum(sizes: seq<nat>, cut: nat)
    requires cut <= |sizes|
    ensures Sum(sizes[cut..] + sizes[..cut]) == Sum(sizes)
  {
    SumConcat(sizes[cut..], sizes[..cut]);
    SumConcat(sizes[..cut], sizes[cut..]);
    assert sizes[..cut] + sizes[cut..] == sizes;
  }

  lemma PaddedSum(sizes: seq<nat>, n: nat)
    ensures Sum(sizes + seq(n, _ => 0)) == Sum(sizes)
  {
    SumConcat(sizes, seq(n, _ => 0));
    SumZeros(seq(n, _ => 0));
  }

  /** The raw-order sum of the slot sizes is the length of the logical concatenation. */
  lemma RotationInvariance(log: seq<Bytes>)
    ensures Sum(Sizes(Slots(log, []))) == |Flat(Visible(log))|
  {
    SizesRotation(log);
    FlatLength(Visible(log));
    if |log| < CAPACITY {
      PaddedSum(Sizes(Visible(log)), CAPACITY - |log|);
    } else {
      RotatedSum(Sizes(Visible(log)), CAPACITY - |log| % CAPACITY);
    }
  }
}
