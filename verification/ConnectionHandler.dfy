/** handler.c: one connection's receive loop over the character device. */
module ConnectionHandler {
  import opened ByteStreams
  import opened RingSpec
  import opened DeviceSpec
  import opened DeviceRuns
  import opened CharDevice
  import opened PacketFraming
  import opened PacketBuffers
  import opened ConnectionRuns
  import ConnectionRegistry

  // ---------------------------------------------------------------- write_to_client

  /** What other threads do before this one gets the lock, and then its read. */
  method OthersThenRead(dev: Device, others: seq<Op>, fd: Fd, fault: Fault) returns (out: Outcome)
    requires dev.Valid()
    modifies dev, dev.buffer, dev.buffer.entry, dev.mutex
    ensures dev.Valid()
    ensures dev.view == StepRead(Run(old(dev.view), others), fd, BUFFER_SIZE, fault).0
    ensures out == StepRead(Run(old(dev.view), others), fd, BUFFER_SIZE, fault).1
  {
    var _ := dev.Execute(others);
    out := dev.Read(fd, BUFFER_SIZE, fault);
  }

  /** Turn `k` of the drain. */
  method Turn(dev: Device, fd: Fd, plan: seq<DrainStep>, k: nat, ghost c: Course) returns (out: Outcome)
    requires dev.Valid() && IsCourse(c, plan, fd) && dev.view == c(k).0
    modifies dev, dev.buffer, dev.buffer.entry, dev.mutex
    ensures dev.Valid() && dev.view == c(k + 1).0
    ensures c(k + 1).1 == c(k).1 + out.data && c(k + 1).2 == out.ret
  {
    var step := StepAt(plan, k);
    assert TurnIs(c, plan, fd, k);
    out := OthersThenRead(dev, step.others, fd, step.fault);
  }

  /** The body of the loop for read `k`: the loop stops if nothing was read or not all of it was sent. */
  method ReadAndSend(dev: Device, fd: Fd, plan: seq<DrainStep>, k: nat, sent: Bytes, ghost c: Course)
    returns (stop: bool, ret: int, more: Bytes)
    requires dev.Valid() && IsCourse(c, plan, fd) && dev.view == c(k).0 && sent == c(k).1
    modifies dev, dev.buffer, dev.buffer.entry, dev.mutex
    ensures dev.Valid() && dev.view == c(k + 1).0
    ensures stop <==> !Continues(c, plan, k)
    ensures !stop ==> ret == 0 && more == c(k + 1).1
    ensures stop ==> SentAfter(c, plan, k + 1, ret, more)
    ensures !stop && k >= |plan| ==> 0 <= Left(dev.view, fd) < Left(old(dev.view), fd)
  {
    var step := StepAt(plan, k);
    TurnTells(c, plan, fd, k);
    var out := Turn(dev, fd, plan, k, c);
    EmptyTail(sent);
    if out.ret <= 0 {
      return true, 0, sent;
    }
    if step.short.Some? && step.short.value < out.ret {
      ShortIsPrefix(sent, out.data, step.short.value);
      return true, -1, sent + out.data[..step.short.value];
    }
    return false, 0, sent + out.data;
  }

  /** The loop of write_to_client, which stops at the first read that brings nothing or is not sent to
      the end; `turns` counts the reads. */
  method SendAll(dev: Device, fd: Fd, plan: seq<DrainStep>, ghost c: Course)
    returns (ret: int, sent: Bytes, turns: nat)
    requires dev.Valid() && IsCourse(c, plan, fd) && dev.view == c(0).0 && c(0).1 == []
    modifies dev, dev.buffer, dev.buffer.entry, dev.mutex
    ensures dev.Valid() && dev.view == c(turns).0
    ensures StopsAfter(c, plan, turns) && SentAfter(c, plan, turns, ret, sent)
  {
    var stop := false;
    ret, sent, turns := 0, [], 0;
    while !stop
      invariant dev.Valid() && dev.view == c(turns).0
      invariant stop ==> StopsAfter(c, plan, turns) && SentAfter(c, plan, turns, ret, sent)
      invariant !stop ==> ContinuesFor(c, plan, turns) && sent == c(turns).1
      decreases !stop, if turns < |plan| then |plan| - turns else 0, Left(dev.view, fd)
    {
      stop, ret, sent := ReadAndSend(dev, fd, plan, turns, sent, c);
      turns := turns + 1;
    }
  }

  /** write_to_client: read and send until a read returns nothing, be it at the end of the contents or
      because it failed, which the function does not distinguish. `last` is what the last read returned. */
  method WriteToClient(dev: Device, fd: Fd, plan: seq<DrainStep>, ghost wfd: Fd)
    returns (ret: int, sent: Bytes, turns: nat, ghost last: int, ghost given: Bytes)
    requires dev.Valid() && DrainApart(plan, fd, wfd)
    modifies dev, dev.buffer, dev.buffer.entry, dev.mutex
    ensures dev.Valid() && turns > 0
    ensures DrainRan(old(dev.view), plan, fd, turns, dev.view, given, last)
    ensures Traced(old(dev.view), DrainTrace(plan, fd, turns), dev.view, given, [], false, fd, wfd)
    ensures SentUpTo(ret, sent, given, last, StepAt(plan, turns - 1).short)
    ensures last == 0 ==> Left(dev.view, fd) <= 0
    ensures last == 0 ==> CaughtUp(old(dev.view), dev.view, sent, fd)
    ensures last == 0 && dev.view.log == old(dev.view.log) ==>
              (sent == Contents(dev.view) <==> old(Pos(dev.view, fd)) == 0 || Contents(dev.view) == [])
    ensures last < 0 <==> Failed(StepAt(plan, turns - 1).fault, Left(dev.view, fd))
    ensures Left(dev.view, fd) > 0 ==> (ret == 0 <==> ReadFault(StepAt(plan, turns - 1).fault))
    ensures plan != [] && plan[0].fault == LockInterrupted ==> ret == 0 && sent == [] && turns == 1
    ensures ret != 0 ==> FallsShort(StepAt(plan, turns - 1), last)
    ensures NoReadFault(plan) ==> last >= 0
    ensures NoShortSend(plan) ==> ret == 0
  {
    ghost var s := dev.view;
    ghost var c := CourseExists(s, plan, fd, wfd);
    ret, sent, turns := SendAll(dev, fd, plan, c);
    given, last := c(turns).1, c(turns).2;
    CourseIsRun(c, s, plan, fd, wfd, turns);
    DrainTellsEnd(c, s, plan, fd, turns, dev.view, given, last, ret, sent);
    if last == 0 {
      DrainCatchesUp(s, DrainTrace(plan, fd, turns), dev.view, sent, fd);
    }
    if plan != [] && plan[0].fault == LockInterrupted {
      InterruptedSendsNothing(c, s, plan, fd, turns, ret, sent);
    }
  }

  // ---------------------------------------------------------------- one connection and the device

  /** append_packet: a descriptor of its own, one write, and whether that succeeded. */
  method AppendPacket(dev: Device, wfd: Fd, packet: Bytes, fault: Fault) returns (ok: bool)
    requires dev.Valid() && packet != []
    modifies dev, dev.buffer, dev.buffer.entry, dev.mutex
    ensures dev.Valid() && (ok <==> fault == NoFault)
    ensures dev.view == Run(old(dev.view), [Open(wfd), Write(wfd, packet, fault)])
  {
    AppendRun(dev.view, packet, fault, wfd);
    var _ := dev.Perform(Open(wfd));
    AppendSucceeds(dev.view, packet, fault, wfd);
    var out := dev.Write(wfd, packet, fault);
    ok := out.ret >= 0;
  }

  /** write_to_client, for a connection with journal `j` that has been sent `before`. */
  method SendOn(dev: Device, fd: Fd, plan: seq<DrainStep>, ghost wfd: Fd, ghost j: Journal, ghost before: Bytes)
    returns (ok: bool, more: Bytes, ghost turns: nat, ghost given: Bytes, ghost complete: bool)
    requires dev.Valid() && DrainApart(plan, fd, wfd) && Fits(j, dev.view, before, fd, wfd) && !j.cut
    modifies dev, dev.buffer, dev.buffer.entry, dev.mutex
    ensures dev.Valid() && turns > 0
    ensures Traced(old(dev.view), DrainTrace(plan, fd, turns), dev.view, given, [], false, fd, wfd)
    ensures var j' := AfterEcho(j, DrainTrace(plan, fd, turns), given, !ok, complete);
            Fits(j', dev.view, before + more, fd, wfd) && Went(old(dev.view), plan, fd, turns, j')
    ensures complete ==> ok && CaughtUp(old(dev.view), dev.view, more, fd)
    ensures NoShortSend(plan) ==> ok
    ensures NoReadFault(plan) ==> !ok || complete
  {
    ghost var t := dev.view;
    var ret, n;
    ghost var last;
    ret, more, n, last, given := WriteToClient(dev, fd, plan, wfd);
    EchoGoesIn(j, t, before, plan, fd, wfd, n, dev.view, given, last, ret, more);
    ok, turns, complete := ret == 0, n, last == 0;
  }

  /** One connection's dealings with the device: the descriptor its echoes read from, the one that
      append_packet opens anew for each packet, and what has been sent to the client. */
  class Session {
    const dev: Device
    const fd: Fd
    const wfd: Fd
    var sent: Bytes
    ghost var journal: Journal

    ghost predicate Valid()
      reads this, dev, dev.buffer, dev.buffer.entry, dev.mutex
    {
      dev.Valid() && Fits(journal, dev.view, sent, fd, wfd)
    }

    /** open(FILENAME, O_RDONLY) */
    constructor (dev: Device, fd: Fd, wfd: Fd)
      requires dev.Valid() && fd != wfd
      modifies dev, dev.buffer, dev.buffer.entry, dev.mutex
      ensures Valid() && this.dev == dev && this.fd == fd && this.wfd == wfd
      ensures sent == [] && journal == Opened(dev.view) && dev.view == Step(old(dev.view), Open(fd)).0
    {
      this.dev, this.fd, this.wfd := dev, fd, wfd;
      var _ := dev.Perform(Open(fd));
      OpenedFits(dev.view, fd, wfd);
      sent, journal := [], Opened(dev.view);
    }

    /** Other threads use the device. */
    method Interleave(others: seq<Op>)
      requires Valid() && Apart(others, fd, wfd)
      modifies this`journal, dev, dev.buffer, dev.buffer.entry, dev.mutex
      ensures Valid() && journal == Noted(old(journal), others, [], false, false)
      ensures dev.view == Run(old(dev.view), others)
    {
      ghost var t := dev.view;
      OthersTraced(t, others, fd, wfd);
      var _ := dev.Execute(others);
      NotedFits(journal, t, sent, fd, wfd, others, dev.view, [], false, false);
      journal := Noted(journal, others, [], false, false);
    }

    /** append_packet, when open() succeeds. */
    method Append(packet: Bytes, fault: Fault) returns (ok: bool)
      requires Valid() && packet != []
      modifies this`journal, dev, dev.buffer, dev.buffer.entry, dev.mutex
      ensures Valid() && (ok <==> fault == NoFault)
      ensures journal == Noted(old(journal), AppendOps(wfd, packet, fault), if ok then [packet] else [], false, false)
      ensures dev.view == Run(old(dev.view), AppendOps(wfd, packet, fault))
    {
      AppendFits(journal, dev.view, sent, packet, fault, fd, wfd);
      ok := AppendPacket(dev, wfd, packet, fault);
      journal := Noted(journal, AppendOps(wfd, packet, fault), if ok then [packet] else [], false, false);
    }

    /** ioctl(fd, AESDCHAR_IOCSEEKTO, ...) with the two parsed integers cast to uint32_t. */
    method Seek(writeCmd: int, cmdOffset: int, fault: Fault) returns (ok: bool)
      requires Valid()
      modifies this`journal, dev, dev.buffer, dev.buffer.entry, dev.mutex
      ensures Valid()
      ensures journal == Noted(old(journal), [SeekOp(fd, writeCmd, cmdOffset, fault)], [], true, !ok)
      ensures dev.view == SeekStep(old(dev.view), fd, writeCmd, cmdOffset, fault).0
      ensures ok <==> SeekStep(old(dev.view), fd, writeCmd, cmdOffset, fault).1.ret == 0
    {
      var c, o := ToUint32(writeCmd), ToUint32(cmdOffset);
      ghost var t, ops := dev.view, [SeekOp(fd, writeCmd, cmdOffset, fault)];
      SeekTraced(t, c, o, fault, fd, wfd);
      var out := dev.Ioctl(fd, AESDCHAR_IOCSEEKTO, c, o, fault);
      ok := out.ret == 0;
      NotedFits(journal, t, sent, fd, wfd, ops, dev.view, [], true, !ok);
      journal := Noted(journal, ops, [], true, !ok);
    }

    /** write_to_client, and what it means for the bytes sent so far. */
    method Echo(plan: seq<DrainStep>) returns (ok: bool, ghost more: Bytes, ghost turns: nat, ghost given: Bytes)
      requires Valid() && !journal.cut && DrainApart(plan, fd, wfd)
      modifies this`sent, this`journal, dev, dev.buffer, dev.buffer.entry, dev.mutex
      ensures Valid() && sent == old(sent) + more && turns > 0
      ensures Traced(old(dev.view), DrainTrace(plan, fd, turns), dev.view, given, [], false, fd, wfd)
      ensures Went(old(dev.view), plan, fd, turns, journal)
      ensures journal == AfterEcho(old(journal), DrainTrace(plan, fd, turns), given, !ok, journal.complete)
      ensures journal.complete ==> ok && CaughtUp(old(dev.view), dev.view, more, fd)
      ensures NoShortSend(plan) ==> ok
      ensures NoReadFault(plan) ==> !ok || journal.complete
    {
      var bytes;
      ghost var complete;
      ok, bytes, turns, given, complete := SendOn(dev, fd, plan, wfd, journal, sent);
      more, sent := bytes, sent + bytes;
      journal := AfterEcho(journal, DrainTrace(plan, fd, turns), given, !ok, complete);
    }
  }

  // ---------------------------------------------------------------- the receive loop

  /** A seek command that parses: the ioctl, and an echo if it is accepted. */
  method SeekThenSend(session: Session, ev: Recv)
    returns (go: bool, ghost more: Bytes, ghost turns: nat, ghost given: Bytes)
    requires session.Valid() && !session.journal.cut && Admissible(ev, session.fd, session.wfd) && ev.parsed.Some?
    modifies session, session.dev, session.dev.buffer, session.dev.buffer.entry, session.dev.mutex
    ensures session.Valid() && session.sent == old(session.sent) + more
    ensures turns == 0 ==> !go && more == []
    ensures session.journal
         == SeekJournal(old(session.journal), ev, given, go, session.journal.complete, turns, session.fd)
    ensures var (u, out) := SeekStep(old(session.dev.view), session.fd, ev.parsed.value.0, ev.parsed.value.1,
                                     ev.seekFault);
            && (turns > 0 <==> out.ret == 0)
            && (turns > 0 ==> u.log <= session.dev.view.log && Went(u, ev.drain, session.fd, turns, session.journal))
            && (go && session.journal.complete ==> CaughtUp(u, session.dev.view, more, session.fd))
    ensures turns > 0 && NoShortSend(ev.drain) ==> go
    ensures turns > 0 && NoReadFault(ev.drain) ==> !go || session.journal.complete
  {
    EmptyTail(session.sent);
    more, turns, given := [], 0, [];
    go := session.Seek(ev.parsed.value.0, ev.parsed.value.1, ev.seekFault);
    if go {
      ghost var u := session.dev.view;
      go, more, turns, given := session.Echo(ev.drain);
      RunGrows(u, DrainTrace(ev.drain, session.fd, turns));
    }
  }

  /** A seek command, which does nothing if it does not parse. */
  method SeekAndEcho(session: Session, ev: Recv, ghost tail: Bytes) returns (go: bool, ghost turns: nat)
    requires session.Valid() && !session.journal.cut && Admissible(ev, session.fd, session.wfd)
    requires SEEKTO <= tail + ev.chunk && Fitted(ev, tail)
    modifies session, session.dev, session.dev.buffer, session.dev.buffer.entry, session.dev.mutex
    ensures session.Valid()
    ensures session.journal.trace
         == Acted(old(session.journal.trace), ev, tail + ev.chunk, session.fd, session.wfd, turns)
    ensures Answered(ev, tail, go, turns, old(session.dev.view), old(session.sent), old(session.journal),
                     session.journal, session.dev.view, session.sent, session.fd, session.wfd)
    ensures SeekDealtWith(old(session.journal), session.journal, session.wfd, ev, go)
    ensures turns > 0 <==> ev.parsed.Some? && SeekStep(old(session.dev.view), session.fd, ev.parsed.value.0,
                                                       ev.parsed.value.1, ev.seekFault).1.ret == 0
    ensures go <==> ev.parsed.None? || (turns > 0 && !session.journal.cut)
    ensures ev.parsed.None? ==> turns == 0 && unchanged(session)
  {
    go, turns := true, 0;
    ghost var j, s, before := session.journal, session.dev.view, session.sent;
    if ev.parsed.None? {
      NothingSought(j, ev, tail, s, before, session.fd, session.wfd);
    } else {
      ghost var more, given;
      go, more, turns, given := SeekThenSend(session, ev);
      EmptyTail(before);
      SeekSends(s, ev, go && session.journal.complete, session.dev.view, more, before, session.fd);
      SeekAnswered(j, session.journal, ev, tail, given, go, turns, s, before, session.dev.view, session.sent,
                   session.fd, session.wfd);
      SeekIsDealtWith(j, session.journal, ev, given, go, turns, session.dev.view, session.sent,
                      session.fd, session.wfd);
    }
  }

  /** The buffer begins with the seek prefix: it is reset after the command, whether that parsed or not.
      `taken` tells that the command itself succeeded. */
  method OnSeek(session: Session, buffer: PacketBuffer, ev: Recv, ghost chunks: seq<Bytes>, ghost tail: Bytes)
    returns (go: bool, ghost taken: bool, ghost turns: nat)
    requires session.Valid() && !session.journal.cut && Admissible(ev, session.fd, session.wfd)
    requires Frame(chunks) == Framing(session.journal.packets, tail) && Fitted(ev, tail)
    requires buffer.Ready() && SEEKTO <= tail + ev.chunk
    modifies buffer
    modifies session, session.dev, session.dev.buffer, session.dev.buffer.entry, session.dev.mutex
    ensures session.Valid() && buffer.Owned()
    ensures session.journal.trace
         == Acted(old(session.journal.trace), ev, tail + ev.chunk, session.fd, session.wfd, turns)
    ensures Answered(ev, tail, taken, turns, old(session.dev.view), old(session.sent), old(session.journal),
                     session.journal, session.dev.view, session.sent, session.fd, session.wfd)
    ensures SeekDealtWith(old(session.journal), session.journal, session.wfd, ev, taken)
    ensures turns > 0 <==> ev.parsed.Some? && SeekStep(old(session.dev.view), session.fd, ev.parsed.value.0,
                                                       ev.parsed.value.1, ev.seekFault).1.ret == 0
    ensures go <==> (ev.parsed.None? || (turns > 0 && !session.journal.cut)) && ev.mallocOk
    ensures Progressed(old(session.journal), session.journal, session.wfd, ev, chunks, go, taken)
    ensures go ==> buffer.Ready() && buffer.Held() == []
    ensures buffer.data == old(buffer.data) || buffer.data == null || fresh(buffer.data)
  {
    ghost var j := session.journal;
    go, turns := SeekAndEcho(session, ev, tail);
    taken := go;
    if go {
      go := buffer.Reset(ev.mallocOk);
    }
    SeekProgressed(j, session.journal, ev, chunks, tail, taken, go, session.wfd);
  }

  /** Once a packet is appended: reset the buffer and, if that succeeds, echo. */
  method ResetAndEcho(session: Session, buffer: PacketBuffer, ev: Recv)
    returns (go: bool, ghost more: Bytes, ghost turns: nat, ghost given: Bytes)
    requires session.Valid() && !session.journal.cut && Admissible(ev, session.fd, session.wfd) && buffer.Owned()
    modifies buffer
    modifies session, session.dev, session.dev.buffer, session.dev.buffer.entry, session.dev.mutex
    ensures session.Valid() && session.sent == old(session.sent) + more
    ensures turns > 0 <==> ev.mallocOk
    ensures turns == 0 ==> !go && more == [] && session.journal == old(session.journal)
    ensures turns > 0 ==> session.journal == AfterEcho(old(session.journal), DrainTrace(ev.drain, session.fd, turns),
                                                       given, !go, session.journal.complete)
    ensures turns > 0 ==> Went(old(session.dev.view), ev.drain, session.fd, turns, session.journal)
    ensures turns > 0 && session.journal.complete ==>
              CaughtUp(old(session.dev.view), session.dev.view, more, session.fd)
    ensures turns > 0 && NoShortSend(ev.drain) ==> go && (NoReadFault(ev.drain) ==> session.journal.complete)
    ensures buffer.Owned() && (go ==> buffer.Ready() && buffer.Held() == [])
    ensures buffer.data == null || fresh(buffer.data)
  {
    EmptyTail(session.sent);
    more, turns, given := [], 0, [];
    go := buffer.Reset(ev.mallocOk);
    if go {
      go, more, turns, given := session.Echo(ev.drain);
    }
  }

  /** A packet: append it, reset the buffer, echo. */
  method AppendAndEcho(session: Session, buffer: PacketBuffer, ev: Recv)
    returns (go: bool, appended: bool, ghost more: Bytes, ghost turns: nat, ghost given: Bytes)
    requires session.Valid() && !session.journal.cut && Admissible(ev, session.fd, session.wfd)
    requires buffer.Ready() && HasNewline(buffer.Held()) && !(SEEKTO <= buffer.Held())
    modifies buffer
    modifies session, session.dev, session.dev.buffer, session.dev.buffer.entry, session.dev.mutex
    ensures session.Valid() && session.sent == old(session.sent) + more
    ensures appended <==> ev.openOk && ev.writeFault == NoFault
    ensures turns > 0 <==> MayEcho(ev, old(buffer.Held()))
    ensures turns == 0 ==> !go && more == []
    ensures session.journal == PacketJournal(old(session.journal), ev, old(buffer.Held()), given, go,
                                             session.journal.complete, turns, session.fd, session.wfd)
    ensures var u := Run(old(session.dev.view), AppendOps(session.wfd, old(buffer.Held()), ev.writeFault));
            && (turns > 0 ==> Went(u, ev.drain, session.fd, turns, session.journal))
            && (turns > 0 && session.journal.complete ==> CaughtUp(u, session.dev.view, more, session.fd))
    ensures Smooth(ev) ==> go && (NoReadFault(ev.drain) ==> session.journal.complete)
    ensures buffer.Owned() && (go ==> buffer.Ready() && buffer.Held() == [])
    ensures buffer.data == old(buffer.data) || buffer.data == null || fresh(buffer.data)
  {
    EmptyTail(session.sent);
    if !ev.openOk {
      return false, false, [], 0, [];
    }
    appended := session.Append(buffer.data[..buffer.len], ev.writeFault);
    if !appended {
      return false, false, [], 0, [];
    }
    go, more, turns, given := ResetAndEcho(session, buffer, ev);
  }

  /** The buffer holds a newline. */
  method OnPacket(session: Session, buffer: PacketBuffer, ev: Recv, ghost chunks: seq<Bytes>, ghost tail: Bytes)
    returns (go: bool, appended: bool, ghost more: Bytes, ghost turns: nat)
    requires session.Valid() && !session.journal.cut && Admissible(ev, session.fd, session.wfd)
    requires Frame(chunks) == Framing(session.journal.packets, tail) && Fitted(ev, tail)
    requires buffer.Ready() && buffer.Held() == tail + ev.chunk
    requires HasNewline(tail + ev.chunk) && !(SEEKTO <= tail + ev.chunk)
    modifies buffer
    modifies session, session.dev, session.dev.buffer, session.dev.buffer.entry, session.dev.mutex
    ensures session.Valid() && buffer.Owned()
    ensures session.journal.trace
         == Acted(old(session.journal.trace), ev, tail + ev.chunk, session.fd, session.wfd, turns)
    ensures Answered(ev, tail, appended, turns, old(session.dev.view), old(session.sent), old(session.journal),
                     session.journal, session.dev.view, session.sent, session.fd, session.wfd)
    ensures Progressed(old(session.journal), session.journal, session.wfd, ev, chunks, go, appended)
    ensures turns > 0 <==> ev.openOk && ev.writeFault == NoFault && ev.mallocOk
    ensures go <==> turns > 0 && !session.journal.cut
    ensures session.sent == old(session.sent) + more && (turns == 0 ==> more == []) && (turns > 0 ==> appended)
    ensures turns > 0 && session.journal.complete ==>
              CaughtUp(Run(old(session.dev.view), AppendOps(session.wfd, tail + ev.chunk, ev.writeFault)),
                       session.dev.view, more, session.fd)
    ensures !appended ==> session.sent == old(session.sent)
    ensures go ==> buffer.Ready() && buffer.Held() == []
    ensures buffer.data == old(buffer.data) || buffer.data == null || fresh(buffer.data)
  {
    ghost var j, s, before, given := session.journal, session.dev.view, session.sent, [];
    go, appended, more, turns, given := AppendAndEcho(session, buffer, ev);
    EmptyTail(before);
    PacketProgressed(j, session.journal, ev, chunks, tail, given, go, turns, session.fd, session.wfd);
    PacketAnswered(j, session.journal, ev, tail, given, go, turns, s, before, session.dev.view, session.sent,
                   appended, session.fd, session.wfd);
  }

  /** What follows once a chunk is in the buffer. `taken` tells that it has been dealt with. */
  method Dispatch(session: Session, buffer: PacketBuffer, ev: Recv, ghost chunks: seq<Bytes>, ghost tail: Bytes)
    returns (go: bool, ghost taken: bool, ghost turns: nat)
    requires session.Valid() && !session.journal.cut && Admissible(ev, session.fd, session.wfd)
    requires Frame(chunks) == Framing(session.journal.packets, tail) && Fitted(ev, tail)
    requires buffer.Ready() && buffer.Held() == tail + ev.chunk
    modifies buffer
    modifies session, session.dev, session.dev.buffer, session.dev.buffer.entry, session.dev.mutex
    ensures session.Valid() && buffer.Owned()
    ensures session.journal.trace
         == Acted(old(session.journal.trace), ev, tail + ev.chunk, session.fd, session.wfd, turns)
    ensures Answered(ev, tail, taken, turns, old(session.dev.view), old(session.sent), old(session.journal),
                     session.journal, session.dev.view, session.sent, session.fd, session.wfd)
    ensures Progressed(old(session.journal), session.journal, session.wfd, ev, chunks, go, taken)
    ensures go ==> buffer.Ready() && buffer.Held() == Frame(chunks + [ev.chunk]).tail
    ensures buffer.data == old(buffer.data) || buffer.data == null || fresh(buffer.data)
  {
    FrameCases(chunks, ev.chunk, session.journal.packets, tail);
    if SEEKTO <= buffer.data[..buffer.len] {
      go, taken, turns := OnSeek(session, buffer, ev, chunks, tail);
    } else if HasNewline(buffer.data[..buffer.len]) {
      var appended;
      ghost var more;
      go, appended, more, turns := OnPacket(session, buffer, ev, chunks, tail);
      taken := appended;
    } else {
      NothingProgressed(session.journal, ev, chunks, tail, session.dev.view, session.sent, session.fd, session.wfd);
      go, taken, turns := true, true, 0;
    }
  }

  /** The chunk goes into the buffer, if it can be made to fit, and is dealt with. */
  method Respond(session: Session, buffer: PacketBuffer, ev: Recv, ghost chunks: seq<Bytes>, ghost tail: Bytes)
    returns (go: bool, ghost taken: bool, ghost turns: nat)
    requires session.Valid() && !session.journal.cut && Admissible(ev, session.fd, session.wfd)
    requires buffer.Ready() && buffer.Held() == tail && Frame(chunks) == Framing(session.journal.packets, tail)
    modifies buffer, buffer.data
    modifies session, session.dev, session.dev.buffer, session.dev.buffer.entry, session.dev.mutex
    ensures session.Valid() && buffer.Owned()
    ensures session.journal.trace ==
              if Fitted(ev, tail)
              then Acted(old(session.journal.trace), ev, tail + ev.chunk, session.fd, session.wfd, turns)
              else old(session.journal.trace)
    ensures Answered(ev, tail, taken, turns, old(session.dev.view), old(session.sent), old(session.journal),
                     session.journal, session.dev.view, session.sent, session.fd, session.wfd)
    ensures Progressed(old(session.journal), session.journal, session.wfd, ev, chunks, go, taken)
    ensures go ==> buffer.Ready() && buffer.Held() == Frame(chunks + [ev.chunk]).tail
    ensures buffer.data == old(buffer.data) || buffer.data == null || fresh(buffer.data)
  {
    assert |tail| == buffer.len;
    go := buffer.Receive(ev.chunk, ev.reallocOk);
    taken, turns := false, 0;
    if go {
      go, taken, turns := Dispatch(session, buffer, ev, chunks, tail);
    } else {
      UnfittedProgressed(session.journal, ev, chunks, session.dev.view, session.sent, session.fd, session.wfd);
    }
  }

  /** The loop body for one recv(): what other threads did while this one waited, and the answer. */
  method OnChunk(session: Session, buffer: PacketBuffer, ev: Recv, ghost chunks: seq<Bytes>, ghost tail: Bytes)
    returns (go: bool, ghost taken: bool, ghost turns: nat)
    requires session.Valid() && !session.journal.cut && Admissible(ev, session.fd, session.wfd)
    requires buffer.Ready() && buffer.Held() == tail && Frame(chunks) == Framing(session.journal.packets, tail)
    modifies buffer, buffer.data
    modifies session, session.dev, session.dev.buffer, session.dev.buffer.entry, session.dev.mutex
    ensures session.Valid() && buffer.Owned()
    ensures session.journal.trace
         == EventTrace(old(session.journal.trace), ev, tail, session.fd, session.wfd, turns)
    ensures Answered(ev, tail, taken, turns, Run(old(session.dev.view), ev.others), old(session.sent),
                     old(session.journal), session.journal, session.dev.view, session.sent, session.fd, session.wfd)
    ensures Progressed(old(session.journal), session.journal, session.wfd, ev, chunks, go, taken)
    ensures go ==> buffer.Ready() && buffer.Held() == Frame(chunks + [ev.chunk]).tail
    ensures buffer.data == old(buffer.data) || buffer.data == null || fresh(buffer.data)
  {
    ghost var j, before := session.journal, session.sent;
    session.Interleave(ev.others);
    ghost var j', s := session.journal, session.dev.view;
    go, taken, turns := Respond(session, buffer, ev, chunks, tail);
    AnsweredAfterOthers(ev, tail, taken, turns, s, before, j, j', session.journal, session.dev.view, session.sent,
                        session.fd, session.wfd);
    ProgressedAfterOthers(j, j', session.journal, session.wfd, ev, chunks, go, taken);
  }

  /** Of the first `|turns|` chunks `handled` have been dealt with to the end, all of them while the loop is
      going; the device's run, the packets appended and the bytes held are those of the input. */
  ghost predicate Standing(session: Session, buffer: PacketBuffer, input: seq<Recv>,
                           handled: nat, turns: seq<nat>, going: bool)
    reads session, buffer, buffer.data
  {
    && |turns| <= |input| && handled <= |turns| && (going ==> handled == |turns|)
    && buffer.Owned()
    && session.journal.trace == InputTrace(input, turns, session.fd, session.wfd)
    && Served(session.journal, input, turns, handled, session.fd, session.wfd)
    && (going <==> Going(session.journal, input, turns))
    && InStep(session.journal, Chunks(input)[..handled])
    && (going ==>
          && !session.journal.cut && !session.journal.refused
          && buffer.Ready() && buffer.Held() == Frame(Chunks(input)[..|turns|]).tail)
    && KeepsUp(session.journal, session.wfd, input, |turns|, going)
  }

  /** The loop body for the next chunk, seen from the whole input. */
  method OnInput(session: Session, buffer: PacketBuffer, input: seq<Recv>, i: nat, ghost turns: seq<nat>)
    returns (go: bool, ghost handled: nat, ghost longer: seq<nat>)
    requires i == |turns| < |input| && Admissible(input[i], session.fd, session.wfd)
    requires session.Valid() && Standing(session, buffer, input, i, turns, true)
    modifies buffer, buffer.data
    modifies session, session.dev, session.dev.buffer, session.dev.buffer.entry, session.dev.mutex
    ensures session.Valid() && session.journal.start == old(session.journal.start) && |longer| == i + 1
    ensures Standing(session, buffer, input, handled, longer, go)
    ensures buffer.data == old(buffer.data) || buffer.data == null || fresh(buffer.data)
  {
    ghost var j, view, before := session.journal, session.dev.view, session.sent;
    ChunksStep(input, i);
    ghost var taken, n;
    go, taken, n := OnChunk(session, buffer, input[i], Chunks(input)[..i], TailAt(input, i));
    longer, handled := turns + [n], if taken then i + 1 else i;
    InputTraceStep(input, turns, n, session.fd, session.wfd);
    KeepsUpOneMore(j, session.journal, session.wfd, input, i, go, taken);
    AnsweredInRun(j, view, input, turns, longer, n, taken, before, session.journal, session.dev.view, session.sent,
                  session.fd, session.wfd);
    ServedOneMore(j, session.journal, input, turns, longer, handled, session.fd, session.wfd);
  }

  /** The while loop around recv(). `turns[i]` counts the reads of the echo after chunk `i`. */
  method ReceiveLoop(session: Session, buffer: PacketBuffer, input: seq<Recv>)
    returns (ghost handled: nat, ghost turns: seq<nat>)
    requires session.Valid() && session.journal == Opened(session.dev.view)
    requires forall i :: 0 <= i < |input| ==> Admissible(input[i], session.fd, session.wfd)
    requires buffer.Ready() && buffer.Held() == []
    modifies buffer, buffer.data
    modifies session, session.dev, session.dev.buffer, session.dev.buffer.entry, session.dev.mutex
    ensures session.Valid() && session.journal.start == old(session.journal.start) && buffer.Owned()
    ensures Concluded(session.journal, session.dev.view, session.fd, session.wfd, input, handled, turns)
  {
    var i, go := 0, true;
    handled, turns := 0, [];
    while i < |input| && go
      invariant |turns| == i <= |input|
      invariant session.Valid() && session.journal.start == old(session.journal.start)
      invariant Standing(session, buffer, input, handled, turns, go)
      invariant buffer.data == old(buffer.data) || buffer.data == null || fresh(buffer.data)
    {
      go, handled, turns := OnInput(session, buffer, input, i, turns);
      i := i + 1;
    }
    KeepsUpToTheEnd(session.journal, session.wfd, input, i, go, handled == |input| && !session.journal.cut);
    Conclude(session.journal, session.dev.view, session.sent, session.fd, session.wfd, input, handled, turns);
  }

  /** From open() of the echo descriptor to its close(), and the free() that follows. */
  method Converse(dev: Device, fd: Fd, wfd: Fd, buffer: PacketBuffer, input: seq<Recv>)
    returns (session: Session, ghost handled: nat, ghost turns: seq<nat>)
    requires dev.Valid() && fd != wfd
    requires forall i :: 0 <= i < |input| ==> Admissible(input[i], fd, wfd)
    requires buffer.Ready() && buffer.Held() == []
    modifies buffer, buffer.data, dev, dev.buffer, dev.buffer.entry, dev.mutex
    ensures buffer.live == {} && dev.Valid()
    ensures session.dev == dev && session.fd == fd && session.wfd == wfd && session.Valid()
    ensures session.journal.start == Step(old(dev.view), Open(fd)).0
    ensures Concluded(session.journal, dev.view, fd, wfd, input, handled, turns)
  {
    session := new Session(dev, fd, wfd);
    handled, turns := ReceiveLoop(session, buffer, input);
    buffer.Free();
  }

  /** handle_connection. The session is null when the function gives up before opening the device;
      `handled` counts the chunks dealt with to the end. */
  method HandleConnection(dev: Device, fd: Fd, wfd: Fd, node: ConnectionRegistry.Node,
                          input: seq<Recv>, mallocOk: bool, openOk: bool)
    returns (session: Session?, ghost handled: nat, ghost turns: seq<nat>, ghost live: set<array<char>>)
    requires dev.Valid() && fd != wfd
    requires forall i :: 0 <= i < |input| ==> Admissible(input[i], fd, wfd)
    modifies node`done, dev, dev.buffer, dev.buffer.entry, dev.mutex
    ensures node.done && live == {} && dev.Valid()
    ensures session != null <==> mallocOk && openOk
    ensures session == null ==> dev.view == old(dev.view)
    ensures session != null ==>
              && session.dev == dev && session.fd == fd && session.wfd == wfd && session.Valid()
              && session.journal.start == Step(old(dev.view), Open(fd)).0
              && Concluded(session.journal, dev.view, fd, wfd, input, handled, turns)
  {
    session, handled, turns := null, 0, [];
    var buffer := new PacketBuffer();
    buffer.Malloc(mallocOk);
    if buffer.data != null {
      if openOk {
        session, handled, turns := Converse(dev, fd, wfd, buffer, input);
      } else {
        buffer.Free();
      }
    }
    live := buffer.live;
    node.done := true;
  }

  // ---------------------------------------------------------------- a failed read that goes unnoticed

  method EchoTwice(dev: Device, packet: Bytes, fd: Fd, w: Fd) returns (ret: int, sent: Bytes, rest: Bytes)
    requires dev.Valid() && Contents(dev.view) == packet && Pos(dev.view, fd) == 0
    modifies dev, dev.buffer, dev.buffer.entry, dev.mutex
    ensures ret == 0 && sent == [] && rest == packet
  {
    ghost var s := dev.view;
    var plan := [DrainStep([], LockInterrupted, None)];
    var turns, again;
    ghost var last, given;
    ret, sent, turns, last, given := WriteToClient(dev, fd, plan, w);
    InterruptedTurn(s, plan, fd);
    again, rest, turns, last, given := WriteToClient(dev, fd, [], w);
    UndisturbedDrain(s, fd, turns, dev.view, rest);
  }

  /** A packet is in the device, and the lock wait of the echo's first read is interrupted: the echo sends
      nothing and returns 0, and an undisturbed echo after it sends the packet. */
  method EchoCanFailSilently(packet: Bytes, fd: Fd, w: Fd) returns (ret: int, sent: Bytes, rest: Bytes)
    requires HasNewline(packet) && fd != w
    ensures ret == 0 && sent == [] && rest == packet
  {
    var dev := new Device();
    OnePacketHeld(packet, fd, w);
    var _ := dev.Execute(PacketWrites([packet], w));
    ret, sent, rest := EchoTwice(dev, packet, fd, w);
  }
}
