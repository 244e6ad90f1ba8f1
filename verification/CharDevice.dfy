/** main.c: the character device, proved against the state machine of DeviceSpec. */
module CharDevice {
  import opened ByteStreams
  import opened RingSpec
  import opened CircularBuffers
  import opened KernelMemory
  import opened Ownership
  import opened DeviceSpec

  /** The two halves of a write: gathering a chunk, and sealing a command that holds a newline. */
  function Gathered(s: State, chunk: Bytes, fault: Fault): (State, int) {
    if fault == NoMemory then (s, ENOMEM)
    else if fault == CopyFault && |chunk| > 0 then (s.(pend := None), EFAULT)
    else (s.(pend := Some(Pending(s) + chunk)), 0)
  }

  function Sealed(s: State, count: nat): (State, nat) {
    var all := Pending(s);
    if HasNewline(all) then (s.(log := s.log + [all], pend := None), |all|) else (s, count)
  }

  lemma WriteInHalves(s: State, fd: Fd, chunk: Bytes, fault: Fault)
    requires fault != LockInterrupted
    ensures var (t, errno) := Gathered(s, chunk, fault);
            var (u, ret) := Sealed(t, |chunk|);
            StepWrite(s, fd, chunk, fault)
            == if errno != 0 then Fail(t, errno) else (Move(u, fd, Pos(u, fd) + ret), Outcome(ret, []))
  {
  }

  /** struct mutex: taking a held lock, or releasing a free one, breaks a precondition. */
  class Mutex {
    var locked: bool
    var acquisitions: nat

    constructor ()
      ensures !locked && acquisitions == 0
    {
      locked, acquisitions := false, 0;
    }

    method LockInterruptible(interrupted: bool) returns (taken: bool)
      requires !locked
      modifies this
      ensures taken == locked == !interrupted
      ensures acquisitions == old(acquisitions) + if taken then 1 else 0
    {
      taken := !interrupted;
      if taken {
        locked, acquisitions := true, acquisitions + 1;
      }
    }

    method Unlock()
      requires locked
      modifies this
      ensures !locked && acquisitions == old(acquisitions)
    {
      locked := false;
    }
  }

  class Device {
    const buffer: CircularBuffer
    const mutex: Mutex
    var current: Entry        // current_write_entry
    var mem: Mem              // the allocations the driver has made and not freed
    var fpos: map<Fd, nat>    // f_pos of each open struct file
    // The abstract state; Consistent ties every part of it to the fields above.
    ghost var view: State

    /** Everything but the lock, which the operations hold while they work. */
    ghost predicate Consistent()
      reads this, buffer, buffer.entry
    {
      && buffer.Valid()
      && OwnsHistory(buffer.added, view.log, current, mem)
      && view.pend == (if current.buffptr == NULL then None else Some(mem[current.buffptr]))
      && view.fpos == fpos
    }

    ghost predicate Valid()
      reads this, buffer, buffer.entry, mutex
    {
      Consistent() && !mutex.locked
    }

    constructor ()
      ensures Valid() && fresh(buffer) && fresh(buffer.entry) && fresh(mutex)
      ensures view == INITIAL
    {
      var noMem := NothingAllocated();
      ghost var s := INITIAL;
      var ring := new CircularBuffer();
      EmptyOwnsNothing(ring.added, s.log, noMem);
      buffer := ring;
      mutex := new Mutex();
      current, mem, fpos, view := BLANK, noMem, map[], s;
    }

    // ---------------------------------------------------------------- write

    /** The first chunk of a command. */
    method GatherFirst(chunk: Bytes, fault: Fault) returns (errno: int)
      requires Consistent() && current.buffptr == NULL
      modifies this`current, this`mem, this`view
      ensures Consistent() && view == Gathered(old(view), chunk, fault).0
      ensures errno == Gathered(old(view), chunk, fault).1
    {
      NullIsNotLive(buffer.added, view.log, current, mem);
      ghost var mem0 := mem;
      var gotMemory, copied, p, m := AllocAndCopy(mem, chunk, fault != NoMemory, fault == CopyFault);
      mem := m;
      if !gotMemory {
        return ENOMEM;
      }
      if !copied {
        current := Entry(NULL, 0);
        return EFAULT;
      }
      ReplaceKeepsOwnership(buffer.added, view.log, current, mem0, p, chunk);
      assert mem0 - {NULL} == mem0;
      current := Entry(p, |chunk|);
      view := view.(pend := Some([] + chunk));
      assert [] + chunk == chunk;
      return 0;
    }

    /** A further chunk. */
    method GatherMore(chunk: Bytes, fault: Fault) returns (errno: int)
      requires Consistent() && current.buffptr != NULL
      modifies this`current, this`mem, this`view
      ensures Consistent() && view == Gathered(old(view), chunk, fault).0
      ensures errno == Gathered(old(view), chunk, fault).1
    {
      ghost var bytes := Pending(view) + chunk;
      var gotMemory, copied, p, m := GrowAndCopy(mem, current.buffptr, chunk, fault != NoMemory, fault == CopyFault);
      if !gotMemory {
        return ENOMEM;
      }
      ghost var q := if copied then p else current.buffptr;
      ReplaceKeepsOwnership(buffer.added, view.log, current, mem, q, bytes);
      mem := m;
      if !copied {
        current := Entry(NULL, 0);
        view := view.(pend := None);
        return EFAULT;
      }
      current := Entry(p, current.size + |chunk|);
      view := view.(pend := Some(bytes));
      return 0;
    }

    /** Moves the partial command into the ring and frees the entry that falls out. */
    method Commit()
      requires Consistent() && current.buffptr != NULL
      modifies this`current, this`mem, this`view, buffer, buffer.entry
      ensures Consistent()
      ensures view == old(view).(log := old(view.log) + [Pending(old(view))], pend := None)
      ensures mem.Keys == old(mem.Keys
                - (if |view.log| < CAPACITY then {} else {Visible(buffer.added)[0].buffptr}))
    {
      CommitKeepsOwnership(buffer.added, view.log, current, mem);
      view := view.(log := view.log + [mem[current.buffptr]], pend := None);
      var removed := buffer.AddEntry(current);
      if removed != NULL {
        mem := Kfree(mem, removed);
      }
      current := Entry(NULL, 0);
    }

    /** The newline test: commits the gathered bytes if they hold one. */
    method CommitIfComplete(count: nat) returns (retval: nat)
      requires Consistent() && current.buffptr != NULL
      modifies this`current, this`mem, this`view, buffer, buffer.entry
      ensures Consistent() && view == Sealed(old(view), count).0 && retval == Sealed(old(view), count).1
    {
      if HasNewline(mem[current.buffptr]) {
        retval := current.size;
        Commit();
      } else {
        retval := count;
      }
    }

    method SetPos(fd: Fd, p: nat)
      requires Consistent()
      modifies this`fpos, this`view
      ensures Consistent() && view == Move(old(view), fd, p)
    {
      if (if fd in fpos then fpos[fd] else 0) != p {
        fpos := fpos[fd := p];
        view := view.(fpos := fpos);
      }
    }

    method Write(fd: Fd, chunk: Bytes, fault: Fault) returns (out: Outcome)
      requires Valid()
      modifies this, buffer, buffer.entry, mutex
      ensures Valid()
      ensures view == StepWrite(old(view), fd, chunk, fault).0
      ensures out == StepWrite(old(view), fd, chunk, fault).1
      ensures mutex.acquisitions == old(mutex.acquisitions) + if fault == LockInterrupted then 0 else 1
    {
      var taken := mutex.LockInterruptible(fault == LockInterrupted);
      if !taken {
        return Outcome(-ERESTARTSYS, []);
      }
      out := WriteLocked(fd, chunk, fault);
      mutex.Unlock();
    }

    method WriteLocked(fd: Fd, chunk: Bytes, fault: Fault) returns (out: Outcome)
      requires Consistent() && mutex.locked && fault != LockInterrupted
      modifies this, buffer, buffer.entry
      ensures Consistent() && mutex.locked
      ensures view == StepWrite(old(view), fd, chunk, fault).0
      ensures out == StepWrite(old(view), fd, chunk, fault).1
    {
      WriteInHalves(view, fd, chunk, fault);
      var errno;
      if current.buffptr == NULL {
        errno := GatherFirst(chunk, fault);
      } else {
        errno := GatherMore(chunk, fault);
      }
      if errno != 0 {
        out := Outcome(-errno, []);
      } else {
        var retval := CommitIfComplete(|chunk|);
        SetPos(fd, (if fd in fpos then fpos[fd] else 0) + retval);
        out := Outcome(retval, []);
      }
    }

    // ---------------------------------------------------------------- read and seek

    /** The search, seen from the log: the entry that holds contents position `pos`. */
    method Lookup(pos: nat) returns (found: bool, e: Entry, off: nat)
      requires Consistent()
      ensures var at := Locate(Sizes(Visible(view.log)), pos);
              && found == at.Some?
              && (found ==>
                    && off == at.value.1
                    && e.buffptr in mem
                    && mem[e.buffptr] == Visible(view.log)[at.value.0]
                    && e.size == |mem[e.buffptr]|)
    {
      VisibleSizes(buffer.added, view.log, current, mem);
      var index, steps;
      found, index, off, steps := buffer.FindEntryOffsetForFpos(pos);
      e := BLANK;
      if found {
        e := buffer.entry[index];
        ghost var k := OldestHeld(|view.log|) + Locate(Sizes(Visible(view.log)), pos).value.0;
        assert e == buffer.added[k];
      }
    }

    /** What is copied out of one entry. */
    method CopyOut(e: Entry, off: nat, count: nat, fault: Fault) returns (out: Outcome)
      requires e.buffptr in mem && e.size == |mem[e.buffptr]| && off < e.size
      ensures var cmd := mem[e.buffptr];
              var n := Min(count, |cmd| - off);
              out == if fault == CopyFault && n > 0 then Outcome(-EFAULT, []) else Outcome(n, cmd[off..off + n])
    {
      var n := Min(count, e.size - off);
      var ok, data := CopyToUser(mem, e.buffptr, off, n, fault == CopyFault);
      out := if ok then Outcome(n, data) else Outcome(-EFAULT, []);
    }

    method Fetch(pos: nat, count: nat, fault: Fault) returns (out: Outcome)
      requires Consistent()
      ensures out == ReadOutcome(Visible(view.log), pos, count, fault)
    {
      var found, e, off := Lookup(pos);
      if !found || off >= e.size {
        return Outcome(0, []);
      }
      out := CopyOut(e, off, count, fault);
    }

    method Read(fd: Fd, count: nat, fault: Fault) returns (out: Outcome)
      requires Valid()
      modifies this`fpos, this`view, mutex
      ensures Valid()
      ensures view == StepRead(old(view), fd, count, fault).0
      ensures out == StepRead(old(view), fd, count, fault).1
      ensures mutex.acquisitions == old(mutex.acquisitions) + if fault == LockInterrupted then 0 else 1
    {
      var taken := mutex.LockInterruptible(fault == LockInterrupted);
      if !taken {
        return Outcome(-ERESTARTSYS, []);
      }
      out := ReadLocked(fd, count, fault);
      mutex.Unlock();
    }

    method ReadLocked(fd: Fd, count: nat, fault: Fault) returns (out: Outcome)
      requires Consistent() && mutex.locked && fault != LockInterrupted
      modifies this`fpos, this`view
      ensures Consistent() && mutex.locked
      ensures view == StepRead(old(view), fd, count, fault).0
      ensures out == StepRead(old(view), fd, count, fault).1
    {
      var pos := if fd in fpos then fpos[fd] else 0;
      out := Fetch(pos, count, fault);
      SetPos(fd, pos + |out.data|);
    }

    /** The checks and the slot walk of a seek, seen from the log. */
    method SeekOffset(writeCmd: nat, cmdOffset: nat) returns (r: Option<nat>)
      requires Consistent()
      ensures r == SeekOutcome(view.log, writeCmd, cmdOffset)
    {
      if writeCmd >= CAPACITY {
        return None;
      }
      SlotSizes(buffer.added, view.log, current, mem);
      SlotOwns(buffer.added, view.log, current, mem, writeCmd);
      var e := buffer.entry[writeCmd];
      if e.buffptr == NULL {
        return None;
      }
      if cmdOffset >= e.size {
        return None;
      }
      var charOffset := buffer.OffsetOfSlot(writeCmd, cmdOffset);
      return Some(charOffset);
    }

    method Ioctl(fd: Fd, cmd: nat, writeCmd: nat, cmdOffset: nat, fault: Fault) returns (out: Outcome)
      requires Valid()
      modifies this`fpos, this`view, mutex
      ensures Valid()
      ensures view == StepIoctl(old(view), fd, cmd, writeCmd, cmdOffset, fault).0
      ensures out == StepIoctl(old(view), fd, cmd, writeCmd, cmdOffset, fault).1
      ensures mutex.acquisitions == old(mutex.acquisitions)
                + if cmd != AESDCHAR_IOCSEEKTO || fault == LockInterrupted || fault == CopyFault then 0 else 1
    {
      if (cmd / 256) % 256 != AESD_IOC_MAGIC {
        return Outcome(-ENOTTY, []);
      }
      if cmd % 256 > AESDCHAR_IOC_MAXNR {
        return Outcome(-ENOTTY, []);
      }
      if cmd != AESDCHAR_IOCSEEKTO {
        return Outcome(-ENOTTY, []);
      }
      if fault == CopyFault {
        return Outcome(-EFAULT, []);
      }
      var taken := mutex.LockInterruptible(fault == LockInterrupted);
      if !taken {
        return Outcome(-ERESTARTSYS, []);
      }
      out := SeekLocked(fd, writeCmd, cmdOffset);
      mutex.Unlock();
    }

    method SeekLocked(fd: Fd, writeCmd: nat, cmdOffset: nat) returns (out: Outcome)
      requires Consistent() && mutex.locked
      modifies this`fpos, this`view
      ensures Consistent() && mutex.locked
      ensures view == StepIoctl(old(view), fd, AESDCHAR_IOCSEEKTO, writeCmd, cmdOffset, NoFault).0
      ensures out == StepIoctl(old(view), fd, AESDCHAR_IOCSEEKTO, writeCmd, cmdOffset, NoFault).1
    {
      var target := SeekOffset(writeCmd, cmdOffset);
      if target.None? {
        out := Outcome(-EINVAL, []);
      } else {
        SetPos(fd, target.value);
        out := Outcome(0, []);
      }
    }

    /** aesd_circular_buffer_size: the slots summed in raw order give the length of the contents. */
    method TotalSize() returns (size: nat)
      requires Consistent() && mutex.locked
      ensures mutex.locked && size == |Contents(view)|
    {
      SlotSizes(buffer.added, view.log, current, mem);
      RotationInvariance(view.log);
      size := buffer.Size();
    }

    method Llseek(fd: Fd, offset: int, whence: Whence, fault: Fault) returns (out: Outcome)
      requires Valid()
      modifies this`fpos, this`view, mutex
      ensures Valid()
      ensures view == StepLlseek(old(view), fd, offset, whence, fault).0
      ensures out == StepLlseek(old(view), fd, offset, whence, fault).1
      ensures mutex.acquisitions == old(mutex.acquisitions) + if fault == LockInterrupted then 0 else 1
    {
      var taken := mutex.LockInterruptible(fault == LockInterrupted);
      if !taken {
        return Outcome(-ERESTARTSYS, []);
      }
      var size := TotalSize();
      var newpos := FixedSizeLlseek(if fd in fpos then fpos[fd] else 0, offset, whence, size);
      if newpos >= 0 {
        SetPos(fd, newpos);
      }
      out := Outcome(newpos, []);
      mutex.Unlock();
    }

    // ---------------------------------------------------------------- runs

    method Perform(op: Op) returns (out: Outcome)
      requires Valid()
      modifies this, buffer, buffer.entry, mutex
      ensures Valid()
      ensures view == Step(old(view), op).0
      ensures out == Step(old(view), op).1
    {
      match op
      case Open(fd) =>
        SetPos(fd, 0);
        out := Outcome(0, []);
      case Write(fd, chunk, fault) => out := Write(fd, chunk, fault);
      case Read(fd, count, fault) => out := Read(fd, count, fault);
      case Ioctl(fd, cmd, c, o, fault) => out := Ioctl(fd, cmd, c, o, fault);
      case Llseek(fd, offset, whence, fault) => out := Llseek(fd, offset, whence, fault);
    }

    /** Any run of operations on any number of open files. */
    method Execute(ops: seq<Op>) returns (outs: seq<Outcome>)
      requires Valid()
      modifies this, buffer, buffer.entry, mutex
      ensures Valid()
      ensures view == Run(old(view), ops)
      ensures outs == Results(old(view), ops)
    {
      outs := [];
      ghost var s := view;
      for i := 0 to |ops|
        invariant Valid() && view == Run(s, ops[..i])
        invariant outs == Results(s, ops[..i])
      {
        var out := Perform(ops[i]);
        outs := outs + [out];
        RunExtends(s, ops, i);
      }
      assert ops[..|ops|] == ops;
    }

    // ---------------------------------------------------------------- closed form and ownership

    /** The ring's fields and every slot as functions of the commands completed so far. */
    lemma ClosedForm(i: nat)
      requires Consistent() && i < CAPACITY
      ensures var n := |view.log|;
              && buffer.inOffs == n % CAPACITY
              && (buffer.full <==> n >= CAPACITY)
              && buffer.outOffs == (if n < CAPACITY then 0 else n % CAPACITY)
              && (i >= n ==> buffer.entry[i] == Entry(NULL, 0))
              && (i < n ==> exists k ::
                    && 0 <= k < n && k % CAPACITY == i && n - k <= CAPACITY
                    && buffer.entry[i].buffptr in mem
                    && mem[buffer.entry[i].buffptr] == view.log[k])
    {
      SlotOwns(buffer.added, view.log, current, mem, i);
      if i < |view.log| {
        assert Slots(view.log, [])[i] == view.log[Latest(|view.log|, i)];
      }
    }

    /** In every valid state the live allocations are one per held command and one for a partial one. */
    lemma LiveCount()
      requires Consistent()
      ensures |mem| == Count(|view.log|) + (if view.pend.None? then 0 else 1)
      ensures |mem| <= CAPACITY + 1
    {
      LiveAllocations(buffer.added, view.log, OldestHeld(|view.log|), current, mem);
    }

    /** The freeing loop of aesd_cleanup_module. No address is freed twice; a partial command leaks. */
    method Cleanup() returns (freed: nat)
      requires Consistent()
      modifies this`mem
      ensures freed == Count(|view.log|)
      ensures mem.Keys == if current.buffptr == NULL then {} else {current.buffptr}
      ensures mem.Keys == {} <==> view.pend.None?
    {
      ghost var slots, mem0 := Slots(buffer.added, BLANK), mem;
      NullIsNotLive(buffer.added, view.log, current, mem);
      freed := 0;
      for index := 0 to CAPACITY
        invariant freed == if index < |view.log| then index else Count(|view.log|)
        invariant mem == mem0 - Ptrs(slots[..index])
      {
        SlotOwns(buffer.added, view.log, current, mem0, index);
        PtrsAppend(slots, index);
        if buffer.entry[index].buffptr != NULL {
          SlotsAreDistinct(buffer.added, view.log, current, mem0, index);
          mem := Kfree(mem, buffer.entry[index].buffptr);
          freed := freed + 1;
        }
      }
      assert slots[..CAPACITY] == slots;
      SlotsOwnTheRest(buffer.added, view.log, current, mem0);
    }
  }

  method RunUnload(dev: Device, ops: seq<Op>) returns (freed: nat, leaks: bool)
    requires dev.Valid()
    modifies dev, dev.buffer, dev.buffer.entry, dev.mutex
    ensures freed == Count(|Run(old(dev.view), ops).log|)
    ensures leaks <==> Run(old(dev.view), ops).pend.Some?
  {
    var _ := dev.Execute(ops);
    freed := dev.Cleanup();
    leaks := dev.mem.Keys != {};
  }

  /** The module's whole life: any run of operations on a new device, and then the unloading. It frees
      the buffers of the held commands, and leaks exactly when a partial command is left over. */
  method LoadRunUnload(ops: seq<Op>) returns (freed: nat, leaks: bool)
    ensures freed == Count(|Run(INITIAL, ops).log|)
    ensures leaks <==> Run(INITIAL, ops).pend.Some?
  {
    var dev := new Device();
    freed, leaks := RunUnload(dev, ops);
  }

  /** One byte is enough. */
  lemma UnloadCanLeak(fd: Fd)
    ensures Run(INITIAL, [Write(fd, "a", NoFault)]).pend.Some?
  {
    var op := Write(fd, "a", NoFault);
    RunAppend(INITIAL, [], op);
    assert [] + [op] == [op];
  }
}
