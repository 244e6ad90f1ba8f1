/** The kernel allocator and the user-copy routines, as the driver relies on them.
    Memory maps each live allocation to its bytes. Using or freeing an address that is not live
    breaks a precondition, so the callers' proofs are proofs of memory safety. */
module KernelMemory {
  import opened ByteStreams
  import opened CircularBuffers

  type Mem = map<Ptr, Bytes>

  method NothingAllocated() returns (mem: Mem)
    ensures mem.Keys == {}
  {
    mem := map[];
  }

  /** Some address that is neither NULL nor live. Addresses freed earlier may come back. */
  method FreshAddress(live: set<Ptr>) returns (p: Ptr)
    ensures p != NULL && p !in live
  {
    ghost var bound := Bound(live);
    assert bound + 1 !in live;
    p :| p != NULL && p !in live;
  }

  lemma {:induction false} Bound(live: set<Ptr>) returns (bound: Ptr)
    ensures forall q :: q in live ==> q <= bound
    decreases |live|
  {
    if live == {} {
      bound := 0;
    } else {
      var p :| p in live;
      var rest := Bound(live - {p});
      bound := if p < rest then rest else p;
      assert live == live - {p} + {p};
    }
  }

  method Kzalloc(mem: Mem, n: nat, ok: bool) returns (p: Ptr, mem': Mem)
    ensures ok ==> p != NULL && p !in mem && mem' == mem[p := seq(n, _ => '\0')]
    ensures !ok ==> p == NULL && mem' == mem
  {
    if ok {
      p := FreshAddress(mem.Keys);
      mem' := mem[p := seq(n, _ => '\0')];
    } else {
      p, mem' := NULL, mem;
    }
  }

  /** Grows `old` in place or moves it; the old bytes stay at the front either way. */
  method Krealloc(mem: Mem, old_: Ptr, n: nat, ok: bool) returns (p: Ptr, mem': Mem)
    requires old_ != NULL && old_ in mem && |mem[old_]| <= n
    ensures ok ==> p != NULL && (p == old_ || p !in mem)
    ensures ok ==> mem'.Keys == mem.Keys - {old_} + {p}
    ensures ok ==> |mem'[p]| == n && mem[old_] <= mem'[p]
    ensures ok ==> forall q :: q in mem && q != old_ ==> mem'[q] == mem[q]
    ensures !ok ==> p == NULL && mem' == mem
  {
    if !ok {
      p, mem' := NULL, mem;
      return;
    }
    if * {
      p := old_;
    } else {
      p := FreshAddress(mem.Keys);
    }
    mem' := (mem - {old_})[p := mem[old_] + seq(n - |mem[old_]|, _ => '\0')];
  }

  method Kfree(mem: Mem, p: Ptr) returns (mem': Mem)
    requires p in mem
    ensures mem' == mem - {p}
  {
    mem' := mem - {p};
  }

  /** Copies `src` over the bytes of `p` from `off` on. */
  method CopyFromUser(mem: Mem, p: Ptr, off: nat, src: Bytes, faults: bool) returns (ok: bool, mem': Mem)
    requires p in mem && off + |src| <= |mem[p]|
    ensures ok <==> !(faults && |src| > 0)
    ensures mem'.Keys == mem.Keys
    ensures forall q :: q in mem && q != p ==> mem'[q] == mem[q]
    ensures ok ==> mem'[p] == mem[p][..off] + src + mem[p][off + |src|..]
  {
    ok := !(faults && |src| > 0);
    if ok {
      mem' := mem[p := mem[p][..off] + src + mem[p][off + |src|..]];
    } else {
      // a copy that faults may have written any part of the range
      var done :| 0 <= done <= |src|;
      mem' := mem[p := mem[p][..off] + src[..done] + mem[p][off + done..]];
    }
  }

  method CopyToUser(mem: Mem, p: Ptr, off: nat, n: nat, faults: bool) returns (ok: bool, data: Bytes)
    requires p in mem && off + n <= |mem[p]|
    ensures ok <==> !(faults && n > 0)
    ensures ok ==> data == mem[p][off..off + n]
    ensures !ok ==> data == []
  {
    ok := !(faults && n > 0);
    data := if ok then mem[p][off..off + n] else [];
  }

  /** First chunk of a command: allocate, copy, and give the memory back if the copy faults. */
  method AllocAndCopy(mem: Mem, chunk: Bytes, allocates: bool, faults: bool)
    returns (gotMemory: bool, copied: bool, p: Ptr, mem': Mem)
    ensures gotMemory == allocates && copied == (allocates && !(faults && |chunk| > 0))
    ensures copied ==> p != NULL && p !in mem && mem' == mem[p := chunk]
    ensures !copied ==> p == NULL && mem' == mem
  {
    p, mem' := Kzalloc(mem, |chunk|, allocates);
    gotMemory, copied := p != NULL, false;
    if gotMemory {
      copied, mem' := CopyFromUser(mem', p, 0, chunk, faults);
      if copied {
        assert mem'[p] == chunk;
        assert mem' == mem[p := chunk];
      } else {
        mem' := Kfree(mem', p);
        p := NULL;
        assert mem' == mem;
      }
    }
  }

  /** Further chunk: grow, copy behind the old bytes, and free everything if the copy faults. */
  method GrowAndCopy(mem: Mem, p: Ptr, chunk: Bytes, allocates: bool, faults: bool)
    returns (gotMemory: bool, copied: bool, p': Ptr, mem': Mem)
    requires p != NULL && p in mem
    ensures gotMemory == allocates && copied == (allocates && !(faults && |chunk| > 0))
    ensures copied ==> p' != NULL && (p' == p || p' !in mem) && mem' == (mem - {p})[p' := mem[p] + chunk]
    ensures !gotMemory ==> p' == p && mem' == mem
    ensures gotMemory && !copied ==> p' == NULL && mem' == mem - {p}
  {
    p', mem' := Krealloc(mem, p, |mem[p]| + |chunk|, allocates);
    gotMemory, copied := p' != NULL, false;
    if !gotMemory {
      p' := p;
    } else {
      copied, mem' := CopyFromUser(mem', p', |mem[p]|, chunk, faults);
      if copied {
        assert mem'[p'] == mem[p] + chunk;
        assert mem' == (mem - {p})[p' := mem[p] + chunk];
      } else {
        mem' := Kfree(mem', p');
        p' := NULL;
        assert mem' == mem - {p};
      }
    }
  }
}
