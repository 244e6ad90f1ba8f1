/** Who owns which live allocation: each entry the ring still holds one, the partial command one,
    nobody else. Entries and commands are numbered from the first ever added. */
module Ownership {
  import opened ByteStreams
  import opened RingSpec
  import opened CircularBuffers
  import opened KernelMemory

  ghost predicate Owned(added: seq<Entry>, lo: nat, cur: Entry, p: Ptr) {
    (p != NULL && p == cur.buffptr) || exists k :: lo <= k < |added| && added[k].buffptr == p
  }

  /** The entries from number `lo` on own the bytes of their commands, `cur` those of the partial one. */
  ghost predicate Owns(added: seq<Entry>, log: seq<Bytes>, lo: nat, cur: Entry, mem: Mem) {
    && |added| == |log|
    && (forall k :: lo <= k < |added| ==>
          && added[k].buffptr != NULL
          && added[k].buffptr != cur.buffptr
          && added[k].buffptr in mem
          && mem[added[k].buffptr] == log[k]
          && added[k].size == |log[k]|)
    && (forall j, k :: lo <= j < k < |added| ==> added[j].buffptr != added[k].buffptr)
    && (cur.buffptr == NULL ==> cur.size == 0)
    && (cur.buffptr != NULL ==> cur.buffptr in mem && cur.size == |mem[cur.buffptr]|)
    && (forall p {:trigger Owned(added, lo, cur, p)} :: p in mem ==> Owned(added, lo, cur, p))
  }

  /** The number of the oldest entry the ring holds after `n` additions. */
  function OldestHeld(n: nat): nat {
    n - Count(n)
  }

  ghost predicate OwnsHistory(added: seq<Entry>, log: seq<Bytes>, cur: Entry, mem: Mem) {
    Owns(added, log, OldestHeld(|added|), cur, mem)
  }

  // ---------------------------------------------------------------- what keeps ownership

  lemma EmptyOwnsNothing(added: seq<Entry>, log: seq<Bytes>, mem: Mem)
    requires |added| == 0 && |log| == 0 && mem.Keys == {}
    ensures OwnsHistory(added, log, BLANK, mem)
  {
  }

  /** Freeing what the oldest entry owns leaves the rest owned. */
  lemma DropKeepsOwnership(added: seq<Entry>, log: seq<Bytes>, lo: nat, cur: Entry, mem: Mem)
    requires Owns(added, log, lo, cur, mem) && lo < |added|
    ensures Owns(added, log, lo + 1, cur, mem - {added[lo].buffptr})
  {
    forall p | p in mem - {added[lo].buffptr}
      ensures Owned(added, lo + 1, cur, p)
    {
      assert Owned(added, lo, cur, p);
    }
  }

  /** Handing the partial command over makes it the newest entry. */
  lemma HandOverKeepsOwnership(added: seq<Entry>, log: seq<Bytes>, lo: nat, cur: Entry, mem: Mem)
    requires Owns(added, log, lo, cur, mem) && cur.buffptr != NULL && lo <= |added|
    ensures Owns(added + [cur], log + [mem[cur.buffptr]], lo, BLANK, mem)
  {
    var after := added + [cur];
    forall p | p in mem
      ensures Owned(after, lo, BLANK, p)
    {
      assert Owned(added, lo, cur, p);
      if p == cur.buffptr {
        assert after[|added|].buffptr == p;
      } else {
        var k :| lo <= k < |added| && added[k].buffptr == p;
        assert after[k].buffptr == p;
      }
    }
  }

  /** Handing the partial command to the ring, and freeing the entry it pushes out. */
  lemma CommitKeepsOwnership(added: seq<Entry>, log: seq<Bytes>, cur: Entry, mem: Mem)
    requires OwnsHistory(added, log, cur, mem) && cur.buffptr != NULL
    ensures |added| >= CAPACITY ==> Visible(added)[0].buffptr in mem && Visible(added)[0].buffptr != NULL
    ensures var rest := if |added| < CAPACITY then mem else mem - {Visible(added)[0].buffptr};
            OwnsHistory(added + [cur], log + [mem[cur.buffptr]], BLANK, rest)
  {
    var lo := OldestHeld(|added|);
    if |added| < CAPACITY {
      HandOverKeepsOwnership(added, log, lo, cur, mem);
    } else {
      assert Visible(added)[0] == added[lo];
      DropKeepsOwnership(added, log, lo, cur, mem);
      HandOverKeepsOwnership(added, log, lo + 1, cur, mem - {added[lo].buffptr});
    }
  }

  /** The partial command may move to another allocation, grow, or be given up. */
  lemma ReplaceKeepsOwnership(added: seq<Entry>, log: seq<Bytes>, cur: Entry, mem: Mem, p: Ptr, bytes: Bytes)
    requires OwnsHistory(added, log, cur, mem)
    requires p == cur.buffptr || p !in mem
    ensures p != NULL ==> OwnsHistory(added, log, Entry(p, |bytes|), (mem - {cur.buffptr})[p := bytes])
    ensures OwnsHistory(added, log, BLANK, mem - {cur.buffptr})
  {
    var lo := OldestHeld(|added|);
    forall q | q in mem && q != cur.buffptr
      ensures Owned(added, lo, Entry(p, |bytes|), q) && Owned(added, lo, BLANK, q)
    {
      assert Owned(added, lo, cur, q);
    }
  }

  // ---------------------------------------------------------------- what follows from it

  /** Exactly as many allocations are live as there are owners. */
  lemma {:induction false} LiveAllocations(added: seq<Entry>, log: seq<Bytes>, lo: nat, cur: Entry, mem: Mem)
    requires Owns(added, log, lo, cur, mem) && lo <= |added|
    ensures |mem| == |added| - lo + if cur.buffptr == NULL then 0 else 1
    decreases |added| - lo
  {
    if lo == |added| {
      forall p | p in mem
        ensures p == cur.buffptr && p != NULL
      {
        assert Owned(added, lo, cur, p);
      }
      assert mem.Keys == if cur.buffptr == NULL then {} else {cur.buffptr};
    } else {
      var p := added[lo].buffptr;
      var rest := mem - {p};
      assert p in mem;
      assert |mem| == |rest| + 1 by { assert mem.Keys == rest.Keys + {p}; }
      DropKeepsOwnership(added, log, lo, cur, mem);
      LiveAllocations(added, log, lo + 1, cur, rest);
    }
  }

  lemma NullIsNotLive(added: seq<Entry>, log: seq<Bytes>, cur: Entry, mem: Mem)
    requires OwnsHistory(added, log, cur, mem)
    ensures NULL !in mem
  {
    assert !Owned(added, OldestHeld(|added|), cur, NULL);
  }

  /** In raw slot order: which slots are in use, what they own, and how large they are. */
  lemma SlotOwns(added: seq<Entry>, log: seq<Bytes>, cur: Entry, mem: Mem, i: nat)
    requires OwnsHistory(added, log, cur, mem) && i < CAPACITY
    ensures var e, c := Slots(added, BLANK)[i], Slots(log, [])[i];
            && e.size == |c|
            && (e.buffptr == NULL <==> i >= |added|)
            && (e.buffptr != NULL ==> e.buffptr in mem && e.buffptr != cur.buffptr && mem[e.buffptr] == c)
  {
    if i < |added| {
      assert added[Latest(|added|, i)] == Slots(added, BLANK)[i];
    }
  }

  lemma SlotSizes(added: seq<Entry>, log: seq<Bytes>, cur: Entry, mem: Mem)
    requires OwnsHistory(added, log, cur, mem)
    ensures EntrySizes(Slots(added, BLANK)) == Sizes(Slots(log, []))
  {
    forall i | 0 <= i < CAPACITY
      ensures Slots(added, BLANK)[i].size == |Slots(log, [])[i]|
    {
      SlotOwns(added, log, cur, mem, i);
    }
  }

  lemma VisibleSizes(added: seq<Entry>, log: seq<Bytes>, cur: Entry, mem: Mem)
    requires OwnsHistory(added, log, cur, mem)
    ensures EntrySizes(Visible(added)) == Sizes(Visible(log))
  {
    var lo := OldestHeld(|added|);
    forall j | 0 <= j < |Visible(added)|
      ensures Visible(added)[j].size == |Visible(log)[j]|
    {
      assert Visible(added)[j] == added[lo + j] && Visible(log)[j] == log[lo + j];
    }
  }

  function Ptrs(entries: seq<Entry>): set<Ptr> {
    set e | e in entries :: e.buffptr
  }

  lemma PtrsAppend(entries: seq<Entry>, i: nat)
    requires i < |entries|
    ensures Ptrs(entries[..i + 1]) == Ptrs(entries[..i]) + {entries[i].buffptr}
  {
    assert entries[..i + 1] == entries[..i] + [entries[i]];
  }

  /** Slot `i`, when in use, holds a live allocation that no earlier slot holds. */
  lemma SlotsAreDistinct(added: seq<Entry>, log: seq<Bytes>, cur: Entry, mem: Mem, i: nat)
    requires OwnsHistory(added, log, cur, mem) && i < CAPACITY && i < |added|
    ensures Slots(added, BLANK)[i].buffptr in mem - Ptrs(Slots(added, BLANK)[..i])
  {
    SlotOwns(added, log, cur, mem, i);
    forall j | 0 <= j < i
      ensures Slots(added, BLANK)[i].buffptr != Slots(added, BLANK)[..i][j].buffptr
    {
      assert added[Latest(|added|, i)] == Slots(added, BLANK)[i];
      assert added[Latest(|added|, j)] == Slots(added, BLANK)[j];
    }
  }

  /** All that no slot owns is the partial command. */
  lemma SlotsOwnTheRest(added: seq<Entry>, log: seq<Bytes>, cur: Entry, mem: Mem)
    requires OwnsHistory(added, log, cur, mem)
    ensures (mem - Ptrs(Slots(added, BLANK))).Keys == if cur.buffptr == NULL then {} else {cur.buffptr}
  {
    var slots, lo := Slots(added, BLANK), OldestHeld(|added|);
    NullIsNotLive(added, log, cur, mem);
    forall p | p in mem && p != cur.buffptr
      ensures p in Ptrs(slots)
    {
      assert Owned(added, lo, cur, p);
      var k :| lo <= k < |added| && added[k].buffptr == p;
      SlotInLogicalOrder(added, BLANK, k - lo);
      assert slots[WalkSlot(|added|, k - lo)] == added[k];
    }
    forall i | 0 <= i < CAPACITY
      ensures slots[i].buffptr == NULL || slots[i].buffptr != cur.buffptr
    {
      SlotOwns(added, log, cur, mem, i);
    }
  }
}
