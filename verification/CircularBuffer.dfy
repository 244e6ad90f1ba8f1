/** aesd-circular-buffer.c: the ring of ten entries and its two operations. */
module CircularBuffers {
  import opened ByteStreams
  import opened RingSpec

  // A kernel address; NULL owns nothing.
  type Ptr = nat
  const NULL: Ptr := 0

  datatype Entry = Entry(buffptr: Ptr, size: nat)
  const BLANK := Entry(NULL, 0)

  function EntrySizes(entries: seq<Entry>): seq<nat> {
    seq(|entries|, i requires 0 <= i < |entries| => entries[i].size)
  }

  class CircularBuffer {
    const entry: array<Entry>
    var inOffs: nat
    var outOffs: nat
    var full: bool
    // Every entry ever added, in order.
    ghost var added: seq<Entry>

    /** The closed form: each field is a function of the entries added so far. */
    ghost predicate Valid()
      reads this, entry
    {
      && entry.Length == CAPACITY
      && inOffs == |added| % CAPACITY
      && (full <==> |added| >= CAPACITY)
      && outOffs == OldestSlot(|added|)
      && (forall i :: 0 <= i < CAPACITY ==> entry[i] == Slots(added, BLANK)[i])
    }

    constructor ()
      ensures Valid() && fresh(entry) && added == []
    {
      entry := new Entry[CAPACITY](_ => BLANK);
      inOffs, outOffs, full := 0, 0, false;
      added := [];
    }

    method AddEntry(e: Entry) returns (removed: Ptr)
      requires Valid()
      modifies this, entry
      ensures Valid() && added == old(added) + [e]
      ensures removed == if old(|added|) < CAPACITY then NULL else old(Visible(added)[0].buffptr)
    {
      removed := NULL;
      OffsetsAdvance(|added|);
      SlotsAppend(added, BLANK, e);
      if full {
        OldestIsOverwritten(added, BLANK);
        removed := entry[inOffs].buffptr;
        outOffs := (outOffs + 1) % CAPACITY;
      }
      entry[inOffs] := e;
      inOffs := (inOffs + 1) % CAPACITY;
      if inOffs == outOffs {
        full := true;
      }
      added := added + [e];
    }

    /** The slot visited at a step of the search holds the held entry of that number. */
    lemma WalkedEntry(steps: nat)
      requires Valid() && steps < WalkLength(|added|)
      ensures entry[WalkSlot(|added|, steps)]
           == if |added| == 0 then BLANK else Visible(added)[steps]
    {
      assert entry[WalkSlot(|added|, steps)] == Slots(added, BLANK)[WalkSlot(|added|, steps)];
      if |added| != 0 { SlotInLogicalOrder(added, BLANK, steps); }
    }

    /** The step to the next slot, and the condition under which the search goes on. */
    lemma WalkTurns(steps: nat, index: nat, next: nat)
      requires Valid() && steps < WalkLength(|added|)
      requires index == WalkSlot(|added|, steps) && next == (index + 1) % CAPACITY
      ensures next == WalkSlot(|added|, steps + 1)
      ensures (next != inOffs || full) && next != outOffs <==> steps + 1 < WalkLength(|added|)
    {
      WalkAdvances(|added|, steps);
    }

    /** The do-while search. `index` is the slot of the entry found; `steps` counts loop bodies. */
    method FindEntryOffsetForFpos(charOffset: nat)
      returns (found: bool, index: nat, entryOffset: nat, steps: nat)
      requires Valid()
      ensures found <==> Locate(EntrySizes(Visible(added)), charOffset).Some?
      ensures found ==>
                var at := Locate(EntrySizes(Visible(added)), charOffset).value;
                && entryOffset == at.1
                && index == WalkSlot(|added|, at.0)
                && entry[index] == Visible(added)[at.0]
                && steps == at.0 + 1
      ensures !found ==> steps == WalkLength(|added|)
      ensures 1 <= steps <= CAPACITY
    {
      ghost var sizes, n := EntrySizes(Visible(added)), WalkLength(|added|);
      assert 0 < n <= CAPACITY && (|sizes| == 0 || |sizes| == n);
      LocateIsAt(sizes, charOffset);
      var runningSize := 0;
      index := outOffs;
      found, entryOffset, steps := false, 0, 0;
      while true
        invariant steps < n && index == WalkSlot(|added|, steps)
        invariant !found
        invariant |sizes| == 0 ==> runningSize == 0
        invariant |sizes| != 0 ==> runningSize == Sum(sizes[..steps])
        invariant runningSize <= charOffset
        decreases CAPACITY - steps
      {
        WalkedEntry(steps);
        if charOffset < runningSize + entry[index].size {
          found, entryOffset := true, charOffset - runningSize;
          AtIsLocate(sizes, charOffset, steps, entryOffset);
          steps := steps + 1;
          return;
        }
        if |sizes| != 0 { SumPrefixGrows(sizes, steps); }
        WalkTurns(steps, index, (index + 1) % CAPACITY);
        runningSize := runningSize + entry[index].size;
        index := (index + 1) % CAPACITY;
        steps := steps + 1;
        if !((index != inOffs || full) && index != outOffs) {
          assert steps == n;
          break;
        }
      }
      if |sizes| != 0 { SumPrefixAll(sizes, steps); }
    }

    /** AESD_CIRCULAR_BUFFER_FOREACH summing the entry sizes, in raw slot order. */
    method Size() returns (size: nat)
      requires Valid()
      ensures size == Sum(EntrySizes(Slots(added, BLANK)))
    {
      ghost var raw := EntrySizes(Slots(added, BLANK));
      size := 0;
      for index := 0 to CAPACITY
        invariant size == Sum(raw[..index])
      {
        SumPrefixGrows(raw, index);
        assert entry[index] == Slots(added, BLANK)[index];
        size := size + entry[index].size;
      }
      SumPrefixAll(raw, CAPACITY);
    }

    /** The FOREACH walk of the seek: raw-order sizes before slot `writeCmd`, plus an offset. */
    method OffsetOfSlot(writeCmd: nat, cmdOffset: nat) returns (charOffset: nat)
      requires Valid() && writeCmd < CAPACITY
      ensures charOffset == Sum(EntrySizes(Slots(added, BLANK))[..writeCmd]) + cmdOffset
    {
      ghost var raw := EntrySizes(Slots(added, BLANK));
      charOffset := 0;
      var index := 0;
      while index < CAPACITY
        invariant index <= writeCmd
        invariant charOffset == Sum(raw[..index])
      {
        if index == writeCmd {
          charOffset := charOffset + cmdOffset;
          break;
        }
        SumPrefixGrows(raw, index);
        assert entry[index] == Slots(added, BLANK)[index];
        charOffset := charOffset + entry[index].size;
        index := index + 1;
      }
    }
  }
}
