/** handler.c: the growing receive buffer, with its allocations tracked. */
module PacketBuffers {
  import opened ByteStreams

  const BUFFER_SIZE: nat := 1024

  class PacketBuffer {
    var data: array?<char>            // data_buffer
    var len: nat                      // data_len
    ghost var live: set<array<char>>  // buffers allocated and not freed

    /** What is allocated is exactly what data_buffer points to. */
    ghost predicate Owned()
      reads this
    {
      live == if data == null then {} else {data}
    }

    /** Room for what is held and for the terminating NUL. */
    ghost predicate Ready()
      reads this
    {
      Owned() && data != null && len < data.Length && BUFFER_SIZE <= data.Length
    }

    ghost function Held(): Bytes
      requires Ready()
      reads this, data
    {
      data[..len]
    }

    constructor ()
      ensures Owned() && data == null && len == 0
    {
      data, len, live := null, 0, {};
    }

    /** malloc(BUFFER_SIZE): the pointer is overwritten, whatever it held. */
    method Malloc(ok: bool)
      modifies this`data, this`live
      ensures ok ==> data != null && fresh(data) && data.Length == BUFFER_SIZE && live == old(live) + {data}
      ensures !ok ==> data == null && live == old(live)
    {
      data := null;
      if ok {
        data := new char[BUFFER_SIZE];
        live := live + {data};
      }
    }

    /** free(data_buffer): of a live buffer or of NULL only. The pointer keeps its value and dangles. */
    method Free()
      requires data == null || data in live
      modifies this`live
      ensures live == old(live) - (if data == null then {} else {data})
    {
      live := live - if data == null then {} else {data};
    }

    /** The buffer is reset by freeing it and allocating a new one. */
    method Reset(mallocOk: bool) returns (ok: bool)
      requires Owned()
      modifies this
      ensures Owned() && ok == mallocOk
      ensures ok ==> Ready() && Held() == [] && fresh(data)
      ensures !ok ==> data == null
    {
      len := 0;
      Free();
      Malloc(mallocOk);
      ok := data != null;
    }

    /** realloc: a larger buffer with the same bytes in front; the old one is gone. */
    method Grow(size: nat)
      requires Ready() && len < size && BUFFER_SIZE <= size
      modifies this
      ensures Ready() && data.Length == size && len == old(len) && fresh(data)
      ensures Held() == old(Held())
    {
      var bigger := new char[size];
      forall i | 0 <= i < len {
        bigger[i] := data[i];
      }
      assert bigger[..len] == data[..len];
      live := live - {data} + {bigger};
      data := bigger;
    }

    /** memcpy of `chunk` behind what is held, growing first when BUFFER_SIZE would be reached. */
    method Receive(chunk: Bytes, reallocOk: bool) returns (ok: bool)
      requires Ready()
      modifies this, data
      ensures ok <==> reallocOk || old(len) + |chunk| < BUFFER_SIZE
      ensures ok ==> Ready() && Held() == old(Held()) + chunk && data[len] == '\0'
      ensures ok ==> data == old(data) || fresh(data)
      ensures !ok ==> Owned() && data == old(data)
    {
      ghost var held := Held();
      if len + |chunk| >= BUFFER_SIZE {
        if !reallocOk {
          return false;
        }
        Grow(2 * (len + |chunk|));
      }
      forall i | 0 <= i < |chunk| {
        data[len + i] := chunk[i];
      }
      assert data[..len] == held;
      len := len + |chunk|;
      data[len] := '\0';
      assert data[..len] == held + chunk;
      ok := true;
    }
  }
}
