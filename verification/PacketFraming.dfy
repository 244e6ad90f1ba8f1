/** handler.c, without its buffers: how the receive loop turns chunks into packets. */
module PacketFraming {
  import opened ByteStreams

  const SEEKTO: Bytes := "AESDCHAR_IOCSEEKTO:"

  datatype Framing = Framing(packets: seq<Bytes>, tail: Bytes)

  /** One received chunk: a seek command is consumed, a newline makes the whole buffer a packet. */
  function Feed(f: Framing, chunk: Bytes): Framing {
    var all := f.tail + chunk;
    if SEEKTO <= all then f.(tail := [])
    else if HasNewline(all) then Framing(f.packets + [all], [])
    else f.(tail := all)
  }

  function Frame(chunks: seq<Bytes>): Framing {
    if chunks == [] then Framing([], [])
    else Feed(Frame(chunks[..|chunks| - 1]), chunks[|chunks| - 1])
  }

  lemma FrameAppend(chunks: seq<Bytes>, chunk: Bytes)
    ensures Frame(chunks + [chunk]) == Feed(Frame(chunks), chunk)
  {
    assert (chunks + [chunk])[..|chunks|] == chunks;
  }

  /** The three things one more chunk can do. */
  lemma FrameCases(chunks: seq<Bytes>, chunk: Bytes, packets: seq<Bytes>, tail: Bytes)
    requires Frame(chunks) == Framing(packets, tail)
    ensures var all := tail + chunk;
            Frame(chunks + [chunk]) ==
              if SEEKTO <= all then Framing(packets, [])
              else if HasNewline(all) then Framing(packets + [all], [])
              else Framing(packets, all)
  {
    FrameAppend(chunks, chunk);
  }

  /** The buffer `all` is reset if it holds a packet or a seek command. */
  function Cut(cuts: seq<Bytes>, all: Bytes): seq<Bytes> {
    if SEEKTO <= all || HasNewline(all) then cuts + [all] else cuts
  }

  /** What was in the buffer each time it was reset: the packets and the seek commands, in order. */
  function Cuts(chunks: seq<Bytes>): seq<Bytes> {
    if chunks == [] then []
    else
      var m := |chunks| - 1;
      Cut(Cuts(chunks[..m]), Frame(chunks[..m]).tail + chunks[m])
  }

  /** Those that are no seek commands. */
  function Packets(cuts: seq<Bytes>): seq<Bytes> {
    if cuts == [] then []
    else
      var m := |cuts| - 1;
      if SEEKTO <= cuts[m] then Packets(cuts[..m]) else Packets(cuts[..m]) + [cuts[m]]
  }

  lemma PacketsAppend(cuts: seq<Bytes>, cut: Bytes)
    ensures Packets(cuts + [cut]) == if SEEKTO <= cut then Packets(cuts) else Packets(cuts) + [cut]
  {
    assert (cuts + [cut])[..|cuts|] == cuts;
  }

  lemma FeedConserves(f: Framing, cuts: seq<Bytes>, chunk: Bytes, received: Bytes)
    requires Flat(cuts) + f.tail == received && f.packets == Packets(cuts)
    ensures Flat(Cut(cuts, f.tail + chunk)) + Feed(f, chunk).tail == received + chunk
    ensures Feed(f, chunk).packets == Packets(Cut(cuts, f.tail + chunk))
  {
    var all := f.tail + chunk;
    FlatAppend(cuts, all);
    PacketsAppend(cuts, all);
    ConcatAssociates(Flat(cuts), f.tail, chunk);
    EmptyTail(received + chunk);
  }

  /** Whatever the chunking: packets and seek commands, and then the tail, are the bytes received, each
      once and in order; the packets are those that are no commands. */
  lemma {:induction false} FramingConserves(chunks: seq<Bytes>)
    ensures Flat(Cuts(chunks)) + Frame(chunks).tail == Flat(chunks)
    ensures Frame(chunks).packets == Packets(Cuts(chunks))
    decreases |chunks|
  {
    if chunks == [] {
    } else {
      var m := |chunks| - 1;
      FramingConserves(chunks[..m]);
      FeedConserves(Frame(chunks[..m]), Cuts(chunks[..m]), chunks[m], Flat(chunks[..m]));
    }
  }

  lemma {:induction false} AllArePackets(cuts: seq<Bytes>)
    requires forall cut :: cut in cuts ==> !(SEEKTO <= cut)
    ensures Packets(cuts) == cuts
    decreases |cuts|
  {
    if cuts == [] {
    } else {
      var m := |cuts| - 1;
      assert cuts[m] in cuts && forall cut :: cut in cuts[..m] ==> cut in cuts;
      AllArePackets(cuts[..m]);
      assert cuts == cuts[..m] + [cuts[m]];
    }
  }

  /** So without seek commands, the packets and then the tail are the bytes received. */
  lemma FramingWithoutSeeks(chunks: seq<Bytes>)
    requires forall cut :: cut in Cuts(chunks) ==> !(SEEKTO <= cut)
    ensures Flat(Frame(chunks).packets) + Frame(chunks).tail == Flat(chunks)
  {
    FramingConserves(chunks);
    AllArePackets(Cuts(chunks));
  }

  /** Every packet carries a newline and is no seek command; what stays buffered is neither. */
  lemma {:induction false} PacketsAreFramed(chunks: seq<Bytes>)
    ensures !HasNewline(Frame(chunks).tail) && !(SEEKTO <= Frame(chunks).tail)
    ensures forall i :: 0 <= i < |Frame(chunks).packets| ==>
              HasNewline(Frame(chunks).packets[i]) && !(SEEKTO <= Frame(chunks).packets[i])
    decreases |chunks|
  {
    if chunks == [] {
    } else {
      PacketsAreFramed(chunks[..|chunks| - 1]);
    }
  }
}
