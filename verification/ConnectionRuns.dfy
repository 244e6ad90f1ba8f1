/** handler.c on values: the device's run while one connection is served, with other threads' operations
    interleaved wherever the handler lets go of the device lock, and what that run has sent. */
module ConnectionRuns {
  import opened ByteStreams
  import opened RingSpec
  import opened DeviceSpec
  import opened DeviceRuns
  import opened PacketFraming
  import opened PacketBuffers

  /** One turn of the drain loop: what other threads do first, how the read goes, and how many
      bytes send() takes when it does not take all. */
  datatype DrainStep = DrainStep(others: seq<Op>, fault: Fault, short: Option<nat>)

  /** One recv() that returned bytes, and how everything it leads to turns out. */
  datatype Recv = Recv(
    chunk: Bytes,
    reallocOk: bool,
    others: seq<Op>,
    parsed: Option<(int, int)>, // sscanf of the seek arguments
    seekFault: Fault,
    openOk: bool,               // open() of append_packet
    writeFault: Fault,
    mallocOk: bool,
    drain: seq<DrainStep>)

  predicate Apart(ops: seq<Op>, fd: Fd, wfd: Fd) {
    forall i :: 0 <= i < |ops| ==> ops[i].fd != fd && ops[i].fd != wfd
  }

  predicate DrainApart(plan: seq<DrainStep>, fd: Fd, wfd: Fd) {
    forall i :: 0 <= i < |plan| ==> Apart(plan[i].others, fd, wfd)
  }

  /** What recv() and the other threads guarantee. */
  predicate Admissible(ev: Recv, fd: Fd, wfd: Fd) {
    && 0 < |ev.chunk| < BUFFER_SIZE
    && Apart(ev.others, fd, wfd)
    && DrainApart(ev.drain, fd, wfd)
  }

  /** The chunks that writes through `fd` put into the device. */
  function WritesBy(ops: seq<Op>, fd: Fd): seq<Bytes> {
    if ops == [] then []
    else
      var m := |ops| - 1;
      WritesBy(ops[..m], fd)
      + if ops[m].Write? && ops[m].fd == fd && ops[m].fault == NoFault then [ops[m].chunk] else []
  }

  lemma WritesByOne(op: Op, fd: Fd)
    ensures WritesBy([op], fd) == if op.Write? && op.fd == fd && op.fault == NoFault then [op.chunk] else []
  {
    assert [op][..0] == [];
  }

  lemma {:induction false} WritesByConcat(a: seq<Op>, b: seq<Op>, fd: Fd)
    ensures WritesBy(a + b, fd) == WritesBy(a, fd) + WritesBy(b, fd)
    decreases |b|
  {
    if b == [] {
      assert a + b == a;
    } else {
      var m := |b| - 1;
      assert (a + b)[..|a + b| - 1] == a + b[..m];
      WritesByConcat(a, b[..m], fd);
    }
  }

  /** Operations on other files write nothing through this one. */
  lemma {:induction false} OthersWriteNothing(ops: seq<Op>, fd: Fd)
    requires forall i :: 0 <= i < |ops| ==> ops[i].fd != fd
    ensures WritesBy(ops, fd) == []
    decreases |ops|
  {
    if ops == [] {
    } else {
      OthersWriteNothing(ops[..|ops| - 1], fd);
    }
  }

  /** A run, then other threads' operations, then one operation of this thread. */
  lemma RunThenOthers(s: State, trace: seq<Op>, others: seq<Op>, op: Op)
    ensures Run(s, trace + others + [op]) == Step(Run(Run(s, trace), others), op).0
  {
    RunConcat(s, trace, others);
    RunAppend(s, trace + others, op);
  }

  lemma ReadByOthers(s: State, trace: seq<Op>, others: seq<Op>, fd: Fd)
    requires forall i :: 0 <= i < |others| ==> others[i].fd != fd
    ensures ReadBy(s, trace + others, fd) == ReadBy(s, trace, fd)
  {
    OthersAreSilent(Run(s, trace), others, fd);
    ReadByConcat(s, trace, others, fd);
  }

  lemma ReadByThenOthers(s: State, trace: seq<Op>, others: seq<Op>, op: Op, fd: Fd)
    requires forall i :: 0 <= i < |others| ==> others[i].fd != fd
    ensures ReadBy(s, trace + others + [op], fd)
         == ReadBy(s, trace, fd) + Delivered(Run(Run(s, trace), others), op, fd)
  {
    RunConcat(s, trace, others);
    ReadByOthers(s, trace, others, fd);
    ReadByAppend(s, trace + others, op, fd);
  }

  lemma WritesByThenOthers(trace: seq<Op>, others: seq<Op>, op: Op, wfd: Fd)
    requires forall i :: 0 <= i < |others| ==> others[i].fd != wfd
    ensures WritesBy(trace + others + [op], wfd) == WritesBy(trace, wfd) + WritesBy([op], wfd)
  {
    OthersWriteNothing(others, wfd);
    WritesByConcat(trace, others, wfd);
    WritesByConcat(trace + others, [op], wfd);
  }

  lemma OnlyReadsThenOthers(trace: seq<Op>, others: seq<Op>, op: Op, fd: Fd)
    requires forall i :: 0 <= i < |others| ==> others[i].fd != fd
    requires OnlyReads(trace, fd) && (op.fd == fd ==> op.Read?)
    ensures OnlyReads(trace + others + [op], fd)
  {
  }

  // ---------------------------------------------------------------- one drain

  predicate NoShortSend(plan: seq<DrainStep>) {
    forall i :: 0 <= i < |plan| ==> plan[i].short.None?
  }

  /** While the plan lasts, the other threads do nothing but read. */
  predicate OnlyReaders(plan: seq<DrainStep>) {
    forall i :: 0 <= i < |plan| ==> PureReads(plan[i].others)
  }

  predicate ReadFault(fault: Fault) {
    fault == LockInterrupted || fault == CopyFault
  }

  /** No read of the plan fails. */
  predicate NoReadFault(plan: seq<DrainStep>) {
    forall i :: 0 <= i < |plan| ==> !ReadFault(plan[i].fault)
  }

  /** Turn `i` of a drain: as planned, and undisturbed once the plan is used up. */
  function StepAt(plan: seq<DrainStep>, i: nat): DrainStep {
    if i < |plan| then plan[i] else DrainStep([], NoFault, None)
  }

  /** The device's run during `n` turns of a drain: nothing but what the plan gives the other threads,
      and one read of this one in each turn. */
  function DrainTrace(plan: seq<DrainStep>, fd: Fd, n: nat): seq<Op> {
    if n == 0 then []
    else
      var step := StepAt(plan, n - 1);
      DrainTrace(plan, fd, n - 1) + step.others + [Read(fd, BUFFER_SIZE, step.fault)]
  }

  /** What a drain has done so far: `sent` is all that `fd` has been given on the way from `s` to `t`. */
  ghost predicate Drained(s: State, trace: seq<Op>, t: State, sent: Bytes, fd: Fd) {
    t == Run(s, trace) && sent == ReadBy(s, trace, fd)
  }

  /** One turn of the drain loop. */
  lemma DrainTurn(s: State, trace: seq<Op>, t: State, sent: Bytes, fd: Fd, others: seq<Op>, fault: Fault)
    requires Drained(s, trace, t, sent, fd) && forall i :: 0 <= i < |others| ==> others[i].fd != fd
    ensures var (u, out) := StepRead(Run(t, others), fd, BUFFER_SIZE, fault);
            Drained(s, trace + others + [Read(fd, BUFFER_SIZE, fault)], u, sent + out.data, fd)
  {
    var op := Read(fd, BUFFER_SIZE, fault);
    RunThenOthers(s, trace, others, op);
    ReadByThenOthers(s, trace, others, op, fd);
  }

  lemma QuietTurn(trace: seq<Op>, others: seq<Op>, fault: Fault, fd: Fd, wfd: Fd)
    requires OnlyReads(trace, fd) && WritesBy(trace, wfd) == [] && Apart(others, fd, wfd)
    ensures var longer := trace + others + [Read(fd, BUFFER_SIZE, fault)];
            OnlyReads(longer, fd) && WritesBy(longer, wfd) == []
  {
    var op := Read(fd, BUFFER_SIZE, fault);
    WritesByThenOthers(trace, others, op, wfd);
    WritesByOne(op, wfd);
    OnlyReadsThenOthers(trace, others, op, fd);
  }

  /** A drain does nothing but read through `fd`, and writes nothing through `wfd`. */
  lemma {:induction false} DrainTraceIsQuiet(plan: seq<DrainStep>, fd: Fd, wfd: Fd, n: nat)
    requires DrainApart(plan, fd, wfd)
    ensures OnlyReads(DrainTrace(plan, fd, n), fd) && WritesBy(DrainTrace(plan, fd, n), wfd) == []
    decreases n
  {
    if n == 0 {
    } else {
      var step := StepAt(plan, n - 1);
      DrainTraceIsQuiet(plan, fd, wfd, n - 1);
      QuietTurn(DrainTrace(plan, fd, n - 1), step.others, step.fault, fd, wfd);
    }
  }

  /** Whether a read with this fault fails with `left` bytes to come: at the end none is left to copy. */
  predicate Failed(fault: Fault, left: int) {
    fault == LockInterrupted || (fault == CopyFault && left > 0)
  }

  /** How many bytes of the contents follow the position. */
  function Left(t: State, fd: Fd): int {
    |Contents(t)| - Pos(t, fd)
  }

  /** A fault makes a read fail and moves nothing, except that at the end nothing is left to copy. */
  lemma FaultyRead(t: State, fd: Fd, fault: Fault)
    requires ReadFault(fault)
    ensures var (u, out) := StepRead(t, fd, BUFFER_SIZE, fault);
            && Pos(u, fd) == Pos(t, fd) && u.log == t.log
            && (out.ret < 0 <==> fault == LockInterrupted || Pos(t, fd) < |Contents(t)|)
  {
    FlatLength(Visible(t.log));
    LocateIsAt(Sizes(Visible(t.log)), Pos(t, fd));
  }

  /** Where a turn leaves the position: at the end of the contents, or further on than before. */
  lemma TurnMoves(t: State, fd: Fd, fault: Fault)
    ensures var (u, out) := StepRead(t, fd, BUFFER_SIZE, fault);
            && (out.ret <= 0 <==> out.data == [])
            && (out.ret == 0 ==> Pos(u, fd) >= |Contents(u)|)
            && (out.ret > 0 ==>
                  && out.ret == |out.data|
                  && Contents(u) == Contents(t)
                  && Pos(t, fd) < Pos(u, fd) <= |Contents(t)|)
            && (out.ret < 0 <==> Failed(fault, Left(u, fd)))
  {
    if ReadFault(fault) {
      FaultyRead(t, fd, fault);
    }
    ReadIsFlat(t, fd, BUFFER_SIZE, fault);
    OutcomeIsFlat(Visible(t.log), Pos(t, fd), BUFFER_SIZE, fault);
  }

  /** Turn `n` of a drain, in terms of the plan. */
  lemma DrainTurnAt(s: State, plan: seq<DrainStep>, fd: Fd, wfd: Fd, n: nat, t: State, sent: Bytes)
    requires DrainApart(plan, fd, wfd) && Drained(s, DrainTrace(plan, fd, n), t, sent, fd)
    ensures var step := StepAt(plan, n);
            var (u, out) := StepRead(Run(t, step.others), fd, BUFFER_SIZE, step.fault);
            Drained(s, DrainTrace(plan, fd, n + 1), u, sent + out.data, fd)
  {
    var step := StepAt(plan, n);
    DrainTurn(s, DrainTrace(plan, fd, n), t, sent, fd, step.others, step.fault);
  }

  /** The device, all it has delivered and what the last read returned, after each number of turns of
      a drain. */
  type Course = nat -> (State, Bytes, int)

  ghost predicate TurnIs(c: Course, plan: seq<DrainStep>, fd: Fd, k: nat) {
    var step := StepAt(plan, k);
    var t := Run(c(k).0, step.others);
    && c(k + 1).0 == StepRead(t, fd, BUFFER_SIZE, step.fault).0
    && c(k + 1).1 == c(k).1 + StepRead(t, fd, BUFFER_SIZE, step.fault).1.data
    && c(k + 1).2 == StepRead(t, fd, BUFFER_SIZE, step.fault).1.ret
  }

  ghost predicate IsCourse(c: Course, plan: seq<DrainStep>, fd: Fd) {
    forall k: nat :: TurnIs(c, plan, fd, k)
  }

  /** A course that begins in `s`. */
  ghost predicate CourseFrom(c: Course, s: State, plan: seq<DrainStep>, fd: Fd) {
    c(0).0 == s && c(0).1 == [] && IsCourse(c, plan, fd)
  }

  ghost predicate DrainedAt(c: Course, s: State, plan: seq<DrainStep>, fd: Fd, n: nat) {
    Drained(s, DrainTrace(plan, fd, n), c(n).0, c(n).1, fd)
  }

  /** The course of a drain is the run of the device that `DrainTrace` gives, and what that run delivers. */
  lemma CourseTurn(c: Course, s: State, plan: seq<DrainStep>, fd: Fd, wfd: Fd, m: nat, n: nat)
    requires DrainApart(plan, fd, wfd) && IsCourse(c, plan, fd)
    requires n == m + 1 && DrainedAt(c, s, plan, fd, m)
    ensures DrainedAt(c, s, plan, fd, n)
  {
    assert TurnIs(c, plan, fd, m);
    DrainTurnAt(s, plan, fd, wfd, m, c(m).0, c(m).1);
  }

  lemma CourseAdvances(c: Course, s: State, plan: seq<DrainStep>, fd: Fd, wfd: Fd, n: nat)
    requires DrainApart(plan, fd, wfd) && IsCourse(c, plan, fd)
    requires n > 0 && DrainedAt(c, s, plan, fd, n - 1)
    ensures DrainedAt(c, s, plan, fd, n)
  {
    CourseTurn(c, s, plan, fd, wfd, n - 1, n);
  }

  lemma CourseStarts(c: Course, s: State, plan: seq<DrainStep>, fd: Fd, n: nat)
    requires CourseFrom(c, s, plan, fd) && n == 0
    ensures DrainedAt(c, s, plan, fd, n)
  {
    assert DrainTrace(plan, fd, n) == [];
  }

  lemma {:induction false} CourseIsDrained(c: Course, s: State, plan: seq<DrainStep>, fd: Fd, wfd: Fd, n: nat)
    requires CourseFrom(c, s, plan, fd) && DrainApart(plan, fd, wfd)
    ensures DrainedAt(c, s, plan, fd, n)
    decreases n
  {
    if n == 0 {
      CourseStarts(c, s, plan, fd, n);
    } else {
      CourseIsDrained(c, s, plan, fd, wfd, n - 1);
      CourseAdvances(c, s, plan, fd, wfd, n);
    }
  }

  lemma CourseIsRun(c: Course, s: State, plan: seq<DrainStep>, fd: Fd, wfd: Fd, n: nat)
    requires CourseFrom(c, s, plan, fd) && DrainApart(plan, fd, wfd)
    ensures Traced(s, DrainTrace(plan, fd, n), c(n).0, c(n).1, [], false, fd, wfd)
  {
    CourseIsDrained(c, s, plan, fd, wfd, n);
    DrainTraceIsQuiet(plan, fd, wfd, n);
  }

  /** What turn `k` of a drain from `s` returns. */
  function TurnReturns(s: State, plan: seq<DrainStep>, fd: Fd, k: nat): int {
    var step := StepAt(plan, k);
    StepRead(Run(Run(s, DrainTrace(plan, fd, k)), step.others), fd, BUFFER_SIZE, step.fault).1.ret
  }

  /** There is a course from every state, ... */
  lemma CourseExists(s: State, plan: seq<DrainStep>, fd: Fd, wfd: Fd) returns (c: Course)
    requires DrainApart(plan, fd, wfd)
    ensures CourseFrom(c, s, plan, fd)
  {
    c := (k: nat) => (Run(s, DrainTrace(plan, fd, k)), ReadBy(s, DrainTrace(plan, fd, k), fd),
                      if k == 0 then 0 else TurnReturns(s, plan, fd, k - 1));
    assert DrainTrace(plan, fd, 0) == [];
    forall k: nat
      ensures TurnIs(c, plan, fd, k)
    {
      DrainTurnAt(s, plan, fd, wfd, k, c(k).0, c(k).1);
    }
  }

  /** ... and only one. */
  lemma {:induction false} CoursesAgree(c: Course, c': Course, s: State, plan: seq<DrainStep>, fd: Fd, k: nat)
    requires CourseFrom(c, s, plan, fd) && CourseFrom(c', s, plan, fd)
    ensures c(k).0 == c'(k).0 && c(k).1 == c'(k).1 && (k > 0 ==> c(k).2 == c'(k).2)
    decreases k
  {
    if k == 0 {
    } else {
      CoursesAgree(c, c', s, plan, fd, k - 1);
      assert TurnIs(c, plan, fd, k - 1) && TurnIs(c', plan, fd, k - 1);
    }
  }

  /** What the return value of turn `k` says: an error exactly for a fault, 0 at the end, and otherwise
      how much more has been delivered. */
  lemma TurnTells(c: Course, plan: seq<DrainStep>, fd: Fd, k: nat)
    requires IsCourse(c, plan, fd)
    ensures var t, u, last := c(k).0, c(k + 1).0, c(k + 1).2;
            && (last < 0 <==> Failed(StepAt(plan, k).fault, Left(u, fd)))
            && (last == 0 ==> Left(u, fd) <= 0)
            && (last <= 0 ==> c(k + 1).1 == c(k).1)
            && (last > 0 ==> |c(k + 1).1| == |c(k).1| + last)
            && (last > 0 && k >= |plan| ==> 0 <= Left(u, fd) < Left(t, fd))
  {
    assert TurnIs(c, plan, fd, k);
    var step := StepAt(plan, k);
    TurnMoves(Run(c(k).0, step.others), fd, step.fault);
    EmptyTail(c(k).1);
  }

  lemma ShortIsPrefix(sent: Bytes, data: Bytes, n: nat)
    requires n < |data|
    ensures sent + data[..n] < sent + data
  {
  }

  /** `sent` took `fd` from its position in `s` to the end of the contents of `t`: with no command
      evicted meanwhile it is what follows that position, whether or not other threads added to it. Only
      a position beyond the end is not caught up with when something is added. */
  ghost predicate CaughtUp(s: State, t: State, sent: Bytes, fd: Fd) {
    EvictedCount(t) == EvictedCount(s) && (Pos(s, fd) <= |Contents(s)| || t.log == s.log) ==>
      && sent == From(Contents(t), Pos(s, fd))
      && Pos(t, fd) == Pos(s, fd) + |sent|
  }

  /** A drain that got to the end has caught up. */
  lemma DrainCatchesUp(s: State, trace: seq<Op>, t: State, sent: Bytes, fd: Fd)
    requires Drained(s, trace, t, sent, fd) && OnlyReads(trace, fd) && Pos(t, fd) >= |Contents(t)|
    ensures CaughtUp(s, t, sent, fd)
    ensures t.log == s.log ==> (sent == Contents(s) <==> Pos(s, fd) == 0 || Contents(s) == [])
  {
    PositionCountsBytesRead(s, trace, fd);
    if t.log == s.log {
      DrainIsExact(s, trace, fd);
      DrainGivesAllIff(s, trace, fd);
    }
    if EvictedCount(t) == EvictedCount(s) && Pos(s, fd) <= |Contents(s)| {
      DrainAmongWriters(s, trace, fd);
      FromIsSuffix(Contents(t), Pos(s, fd));
    }
  }

  /** Beside readers only, the drain's run is nothing but reads. */
  lemma {:induction false} DrainAmongReaders(plan: seq<DrainStep>, fd: Fd, n: nat)
    requires OnlyReaders(plan)
    ensures PureReads(DrainTrace(plan, fd, n))
    decreases n
  {
    if n == 0 {
    } else {
      DrainAmongReaders(plan, fd, n - 1);
    }
  }

  /** Whether a send() of `n` bytes falls short. */
  predicate FallsShort(step: DrainStep, n: int) {
    step.short.Some? && step.short.value < n
  }

  /** A drain goes on after turn `k`: the read brought something, and all of it was sent. */
  ghost predicate Continues(c: Course, plan: seq<DrainStep>, k: nat) {
    c(k + 1).2 > 0 && !FallsShort(StepAt(plan, k), c(k + 1).2)
  }

  /** What is returned and sent at the end: all that was delivered, or -1 and, of the last `last` bytes,
      only those that the short send took. */
  predicate SentUpTo(ret: int, sent: Bytes, given: Bytes, last: int, short: Option<nat>) {
    && (ret == 0 <==> last <= 0)
    && (ret == 0 ==> sent == given)
    && (ret != 0 ==> ret == -1 && sent < given && short.Some? && |given| - |sent| == last - short.value)
  }

  /** The same of a drain with `turns` turns. */
  ghost predicate SentAfter(c: Course, plan: seq<DrainStep>, turns: nat, ret: int, sent: Bytes) {
    turns > 0 && SentUpTo(ret, sent, c(turns).1, c(turns).2, StepAt(plan, turns - 1).short)
  }

  /** It goes on after each of the first `n` turns. */
  ghost predicate ContinuesFor(c: Course, plan: seq<DrainStep>, n: nat) {
    n == 0 || (ContinuesFor(c, plan, n - 1) && Continues(c, plan, n - 1))
  }

  lemma {:induction false} ContinuesAt(c: Course, plan: seq<DrainStep>, n: nat, k: nat)
    requires ContinuesFor(c, plan, n) && k < n
    ensures Continues(c, plan, k)
    decreases n
  {
    if k == n - 1 {
    } else {
      ContinuesAt(c, plan, n - 1, k);
    }
  }

  /** The drain has `turns` turns: the first after which it does not go on is the last. */
  ghost predicate StopsAfter(c: Course, plan: seq<DrainStep>, turns: nat) {
    turns > 0 && ContinuesFor(c, plan, turns - 1) && !Continues(c, plan, turns - 1)
  }

  /** So the number of turns is settled by the device and the plan. */
  lemma StopsOnce(c: Course, plan: seq<DrainStep>, m: nat, n: nat)
    requires StopsAfter(c, plan, m) && StopsAfter(c, plan, n)
    ensures m == n
  {
    if m < n {
      ContinuesAt(c, plan, n - 1, m - 1);
    } else if n < m {
      ContinuesAt(c, plan, m - 1, n - 1);
    }
  }

  /** A drain from `s` has `turns` turns, leaves the device in `t` and delivers `given`, and its last
      read returns `last`. */
  ghost predicate DrainRan(s: State, plan: seq<DrainStep>, fd: Fd, turns: nat, t: State, given: Bytes, last: int) {
    exists c: Course :: CourseFrom(c, s, plan, fd) && StopsAfter(c, plan, turns) && c(turns) == (t, given, last)
  }

  lemma StopsLikewise(c: Course, c': Course, s: State, plan: seq<DrainStep>, fd: Fd, turns: nat)
    requires CourseFrom(c, s, plan, fd) && CourseFrom(c', s, plan, fd) && StopsAfter(c, plan, turns)
    ensures StopsAfter(c', plan, turns)
  {
    CoursesAgree(c, c', s, plan, fd, turns);
    ContinuesLikewise(c, c', s, plan, fd, turns - 1);
  }

  lemma {:induction false} ContinuesLikewise(c: Course, c': Course, s: State, plan: seq<DrainStep>, fd: Fd, n: nat)
    requires CourseFrom(c, s, plan, fd) && CourseFrom(c', s, plan, fd) && ContinuesFor(c, plan, n)
    ensures ContinuesFor(c', plan, n)
    decreases n
  {
    if n == 0 {
    } else {
      ContinuesLikewise(c, c', s, plan, fd, n - 1);
      CoursesAgree(c, c', s, plan, fd, n);
    }
  }

  /** The device and the plan settle how a drain goes: how many reads it makes, what they deliver and
      where they leave the device. */
  lemma DrainIsSettled(s: State, plan: seq<DrainStep>, fd: Fd, m: nat, t: State, given: Bytes, last: int,
                       n: nat, t': State, given': Bytes, last': int)
    requires DrainRan(s, plan, fd, m, t, given, last) && DrainRan(s, plan, fd, n, t', given', last')
    ensures m == n && t == t' && given == given' && last == last'
  {
    var c: Course :| CourseFrom(c, s, plan, fd) && StopsAfter(c, plan, m) && c(m) == (t, given, last);
    var c': Course :| CourseFrom(c', s, plan, fd) && StopsAfter(c', plan, n) && c'(n) == (t', given', last');
    StopsLikewise(c, c', s, plan, fd, m);
    StopsOnce(c', plan, m, n);
    CoursesAgree(c, c', s, plan, fd, m);
  }

  /** A drain from `s` has `turns` turns, and `cut` tells that a short send ends it. */
  ghost predicate DrainLasts(s: State, plan: seq<DrainStep>, fd: Fd, turns: nat, cut: bool) {
    exists t: State, given: Bytes, last: int :: DrainRan(s, plan, fd, turns, t, given, last) && (cut <==> last > 0)
  }

  lemma DrainLastsOnce(s: State, plan: seq<DrainStep>, fd: Fd, m: nat, cut: bool, n: nat, cut': bool)
    requires DrainLasts(s, plan, fd, m, cut) && DrainLasts(s, plan, fd, n, cut')
    ensures m == n && cut == cut'
  {
    var t: State, given: Bytes, last: int :| DrainRan(s, plan, fd, m, t, given, last) && (cut <==> last > 0);
    var t': State, given': Bytes, last': int :| DrainRan(s, plan, fd, n, t', given', last') && (cut' <==> last' > 0);
    DrainIsSettled(s, plan, fd, m, t, given, last, n, t', given', last');
  }

  /** A drain from `s` ends with a read at the end of the contents. */
  ghost predicate DrainCompletes(s: State, plan: seq<DrainStep>, fd: Fd) {
    exists turns: nat, t: State, given: Bytes :: DrainRan(s, plan, fd, turns, t, given, 0)
  }

  lemma CompletesIff(s: State, plan: seq<DrainStep>, fd: Fd, turns: nat, t: State, given: Bytes, last: int)
    requires DrainRan(s, plan, fd, turns, t, given, last)
    ensures DrainCompletes(s, plan, fd) <==> last == 0
  {
    if DrainCompletes(s, plan, fd) {
      var turns': nat, t': State, given': Bytes :| DrainRan(s, plan, fd, turns', t', given', 0);
      DrainIsSettled(s, plan, fd, turns, t, given, last, turns', t', given', 0);
    }
  }

  /** A drain whose first lock wait is interrupted has one turn, which delivers nothing. */
  lemma InterruptedStops(c: Course, plan: seq<DrainStep>, fd: Fd, turns: nat)
    requires IsCourse(c, plan, fd) && StopsAfter(c, plan, turns)
    requires plan != [] && plan[0].fault == LockInterrupted
    ensures turns == 1 && c(1).1 == c(0).1 && c(1).2 < 0
  {
    TurnTells(c, plan, fd, 0);
    StopsOnce(c, plan, turns, 1);
  }

  /** Without short sends a drain ends with a read that brings nothing, and an end reported as a short
      send was one. */
  lemma ShortSends(c: Course, plan: seq<DrainStep>, turns: nat)
    requires StopsAfter(c, plan, turns)
    ensures c(turns).2 > 0 ==> FallsShort(StepAt(plan, turns - 1), c(turns).2)
    ensures NoShortSend(plan) ==> c(turns).2 <= 0
  {
  }

  /** When 0 is returned though a read failed, and that without a fault this does not happen: short of
      the end, exactly when the last read meets a fault. */
  lemma FaultGoesUnnoticed(ret: int, last: int, fault: Fault, left: int)
    requires ret == 0 <==> last <= 0
    requires (last < 0 <==> Failed(fault, left)) && (last == 0 ==> left <= 0)
    ensures ret == 0 && last != 0 <==> Failed(fault, left)
    ensures left > 0 ==> (ret == 0 <==> ReadFault(fault))
    ensures !ReadFault(fault) ==> last >= 0
  {
  }

  /** What the last read of a drain says about its end. */
  lemma DrainTellsEnd(c: Course, s: State, plan: seq<DrainStep>, fd: Fd, turns: nat,
                      t: State, given: Bytes, last: int, ret: int, sent: Bytes)
    requires CourseFrom(c, s, plan, fd) && StopsAfter(c, plan, turns)
    requires c(turns) == (t, given, last) && SentUpTo(ret, sent, given, last, StepAt(plan, turns - 1).short)
    ensures (last < 0 <==> Failed(StepAt(plan, turns - 1).fault, Left(t, fd))) && (last == 0 ==> Left(t, fd) <= 0)
    ensures Left(t, fd) > 0 ==> (ret == 0 <==> ReadFault(StepAt(plan, turns - 1).fault))
    ensures ret != 0 ==> FallsShort(StepAt(plan, turns - 1), last)
    ensures NoReadFault(plan) ==> last >= 0
    ensures NoShortSend(plan) ==> ret == 0
  {
    TurnTells(c, plan, fd, turns - 1);
    ShortSends(c, plan, turns);
    FaultGoesUnnoticed(ret, last, StepAt(plan, turns - 1).fault, Left(t, fd));
  }

  lemma InterruptedSendsNothing(c: Course, s: State, plan: seq<DrainStep>, fd: Fd, turns: nat, ret: int, sent: Bytes)
    requires CourseFrom(c, s, plan, fd) && StopsAfter(c, plan, turns)
    requires SentUpTo(ret, sent, c(turns).1, c(turns).2, StepAt(plan, turns - 1).short)
    requires plan != [] && plan[0].fault == LockInterrupted
    ensures ret == 0 && sent == [] && turns == 1
  {
    InterruptedStops(c, plan, fd, turns);
  }

  lemma LastResult(s: State, before: seq<Op>, op: Op)
    ensures Result(s, before + [op], |before|) == Step(Run(s, before), op).1
    ensures Run(s, before + [op]) == Step(Run(s, before), op).0
  {
    assert (before + [op])[..|before|] == before;
    RunAppend(s, before, op);
  }

  /** Whether the last read of a drain has failed is what its run says of it. */
  lemma LastReadFails(s: State, plan: seq<DrainStep>, fd: Fd, n: nat, t: State)
    requires n > 0 && t == Run(s, DrainTrace(plan, fd, n))
    ensures var ops := DrainTrace(plan, fd, n);
            ops != [] && (Result(s, ops, |ops| - 1).ret < 0 <==> Failed(StepAt(plan, n - 1).fault, Left(t, fd)))
  {
    var step := StepAt(plan, n - 1);
    var before := DrainTrace(plan, fd, n - 1) + step.others;
    LastResult(s, before, Read(fd, BUFFER_SIZE, step.fault));
    TurnMoves(Run(s, before), fd, step.fault);
  }

  lemma InterruptedTurn(s: State, plan: seq<DrainStep>, fd: Fd)
    requires plan != [] && plan[0].fault == LockInterrupted && plan[0].others == []
    ensures Run(s, DrainTrace(plan, fd, 1)) == s
  {
    var op := Read(fd, BUFFER_SIZE, LockInterrupted);
    assert DrainTrace(plan, fd, 0) == [] && DrainTrace(plan, fd, 1) == [] + [op];
    RunAppend(s, [], op);
  }

  /** With nobody else there and no fault, a drain that caught up has sent what follows the position. */
  lemma UndisturbedDrain(s: State, fd: Fd, turns: nat, t: State, sent: Bytes)
    requires t == Run(s, DrainTrace([], fd, turns)) && CaughtUp(s, t, sent, fd) && Pos(s, fd) == 0
    ensures sent == Contents(s)
  {
    DrainAmongReaders([], fd, turns);
    PureReadsKeepState(s, DrainTrace([], fd, turns));
    FromIsSuffix(Contents(s), 0);
  }

  // ---------------------------------------------------------------- runs with one connection in them

  /** A run from `s` to `t` in which `fd` is given `sent` and `wfd` puts in `packets`;
      unless it seeks, it only reads through `fd`. */
  ghost predicate Traced(s: State, trace: seq<Op>, t: State, sent: Bytes, packets: seq<Bytes>,
                         sought: bool, fd: Fd, wfd: Fd)
  {
    && t == Run(s, trace)
    && sent == ReadBy(s, trace, fd)
    && packets == WritesBy(trace, wfd)
    && (!sought ==> OnlyReads(trace, fd))
  }

  lemma TracedThenTraced(s: State, a: seq<Op>, t: State, sent: Bytes, packets: seq<Bytes>, sought: bool,
                         b: seq<Op>, u: State, sent': Bytes, packets': seq<Bytes>, sought': bool,
                         fd: Fd, wfd: Fd)
    requires Traced(s, a, t, sent, packets, sought, fd, wfd)
    requires Traced(t, b, u, sent', packets', sought', fd, wfd)
    ensures Traced(s, a + b, u, sent + sent', packets + packets', sought || sought', fd, wfd)
  {
    RunConcat(s, a, b);
    ReadByConcat(s, a, b, fd);
    WritesByConcat(a, b, wfd);
  }

  lemma OthersTraced(t: State, others: seq<Op>, fd: Fd, wfd: Fd)
    requires Apart(others, fd, wfd)
    ensures Traced(t, others, Run(t, others), [], [], false, fd, wfd)
  {
    OthersAreSilent(t, others, fd);
    OthersWriteNothing(others, wfd);
  }

  /** append_packet: open, one write, close. */
  function AppendOps(wfd: Fd, packet: Bytes, fault: Fault): seq<Op> {
    [Open(wfd), Write(wfd, packet, fault)]
  }

  lemma AppendSucceeds(u: State, packet: Bytes, fault: Fault, wfd: Fd)
    requires packet != []
    ensures StepWrite(u, wfd, packet, fault).1.ret >= 0 <==> fault == NoFault
  {
  }

  lemma AppendRun(t: State, packet: Bytes, fault: Fault, wfd: Fd)
    ensures Run(t, AppendOps(wfd, packet, fault)) == StepWrite(Step(t, Open(wfd)).0, wfd, packet, fault).0
    ensures WritesBy(AppendOps(wfd, packet, fault), wfd) == if fault == NoFault then [packet] else []
  {
    var a, b := Open(wfd), Write(wfd, packet, fault);
    assert AppendOps(wfd, packet, fault) == [a] + [b] && [] + [a] == [a];
    RunAppend(t, [a], b);
    RunAppend(t, [], a);
    WritesByOne(a, wfd);
    WritesByOne(b, wfd);
    WritesByConcat([a], [b], wfd);
  }

  lemma AppendTraced(t: State, packet: Bytes, fault: Fault, fd: Fd, wfd: Fd)
    requires fd != wfd
    ensures Traced(t, AppendOps(wfd, packet, fault), Run(t, AppendOps(wfd, packet, fault)), [],
                   if fault == NoFault then [packet] else [], false, fd, wfd)
  {
    AppendRun(t, packet, fault, wfd);
    OthersAreSilent(t, AppendOps(wfd, packet, fault), fd);
  }

  lemma SeekTraced(t: State, c: nat, o: nat, fault: Fault, fd: Fd, wfd: Fd)
    ensures Traced(t, [Ioctl(fd, AESDCHAR_IOCSEEKTO, c, o, fault)],
                   StepIoctl(t, fd, AESDCHAR_IOCSEEKTO, c, o, fault).0, [], [], true, fd, wfd)
  {
    var op := Ioctl(fd, AESDCHAR_IOCSEEKTO, c, o, fault);
    assert [op][..0] == [];
    RunAppend(t, [], op);
    assert [] + [op] == [op];
  }

  // ---------------------------------------------------------------- many connections, one log

  /** Who wrote each accepted write. */
  function Writers(ops: seq<Op>): (w: seq<Fd>)
    ensures |w| == |Accepted(ops)|
  {
    if ops == [] then []
    else
      var m := |ops| - 1;
      Writers(ops[..m]) + (if ops[m].Write? && ops[m].fault == NoFault then [ops[m].fd] else [])
  }

  /** The entries of one writer, in order. */
  function Pick(entries: seq<Bytes>, writers: seq<Fd>, w: Fd): seq<Bytes>
    requires |writers| == |entries|
  {
    if entries == [] then []
    else
      var m := |entries| - 1;
      Pick(entries[..m], writers[..m], w) + if writers[m] == w then [entries[m]] else []
  }

  lemma PickAppend(entries: seq<Bytes>, writers: seq<Fd>, entry: Bytes, writer: Fd, w: Fd)
    requires |writers| == |entries|
    ensures Pick(entries + [entry], writers + [writer], w)
         == if writer == w then Pick(entries, writers, w) + [entry] else Pick(entries, writers, w)
  {
    assert (entries + [entry])[..|entries|] == entries && (writers + [writer])[..|entries|] == writers;
  }

  lemma {:induction false} PickIsWritesBy(ops: seq<Op>, w: Fd)
    ensures Pick(Accepted(ops), Writers(ops), w) == WritesBy(ops, w)
    decreases |ops|
  {
    if ops == [] {
    } else {
      var rest, op := ops[..|ops| - 1], ops[|ops| - 1];
      PickIsWritesBy(rest, w);
      if op.Write? && op.fault == NoFault {
        PickAppend(Accepted(rest), Writers(rest), op.chunk, op.fd, w);
      } else {
        assert Accepted(ops) == Accepted(rest) && Writers(ops) == Writers(rest);
      }
    }
  }

  lemma {:induction false} WritesByMember(ops: seq<Op>, i: nat)
    requires i < |ops| && ops[i].Write? && ops[i].fault == NoFault
    ensures ops[i].chunk in WritesBy(ops, ops[i].fd)
    decreases |ops|
  {
    if i < |ops| - 1 {
      WritesByMember(ops[..|ops| - 1], i);
    }
  }

  /** The other writers only send whole packets. */
  predicate OthersSendWholePackets(ops: seq<Op>, w: Fd) {
    forall i :: 0 <= i < |ops| && ops[i].Write? && ops[i].fd != w && ops[i].fault == NoFault ==>
      HasNewline(ops[i].chunk)
  }

  /** Whatever the interleaving: the device has no partial command left over, its log has grown by
      whole packets, and this connection's entries among them are its packets in order. */
  lemma PacketsAreNotSpliced(s: State, trace: seq<Op>, t: State, sent: Bytes, packets: seq<Bytes>, sought: bool,
                             fd: Fd, wfd: Fd, chunks: seq<Bytes>)
    requires Traced(s, trace, t, sent, packets, sought, fd, wfd) && packets == Frame(chunks).packets
    requires Pending(s) == [] && OthersSendWholePackets(trace, wfd)
    ensures Pending(t) == []
    ensures t.log == s.log + Accepted(trace)
    ensures Pick(Accepted(trace), Writers(trace), wfd) == packets
  {
    PickIsWritesBy(trace, wfd);
    PacketsAreFramed(chunks);
    forall i | 0 <= i < |trace| && trace[i].Write? && trace[i].fault == NoFault
      ensures HasNewline(trace[i].chunk)
    {
      if trace[i].fd == wfd {
        WritesByMember(trace, i);
      }
    }
    PacketsStayWhole(s, trace);
  }

  // ---------------------------------------------------------------- what one recv() leads to

  const TWO_TO_32 := 0x1_0000_0000
  const INT_LIMIT := 0x8000_0000

  /** The cast from int to uint32_t: the value that differs by a multiple of 2^32. */
  function ToUint32(x: int): (r: nat)
    ensures r < TWO_TO_32 && (r - x) % TWO_TO_32 == 0
    ensures 0 <= x < TWO_TO_32 ==> r == x
  {
    x % TWO_TO_32
  }

  /** The seek that two parsed integers stand for, once cast to uint32_t. */
  function SeekStep(s: State, fd: Fd, writeCmd: int, cmdOffset: int, fault: Fault): (State, Outcome) {
    StepIoctl(s, fd, AESDCHAR_IOCSEEKTO, ToUint32(writeCmd), ToUint32(cmdOffset), fault)
  }

  function SeekOp(fd: Fd, writeCmd: int, cmdOffset: int, fault: Fault): Op {
    Ioctl(fd, AESDCHAR_IOCSEEKTO, ToUint32(writeCmd), ToUint32(cmdOffset), fault)
  }

  /** What the handler itself does to the device, before any echo, once `held` is in the buffer. */
  function Reaction(ev: Recv, held: Bytes, fd: Fd, wfd: Fd): seq<Op> {
    if SEEKTO <= held then
      if ev.parsed.Some? then [SeekOp(fd, ev.parsed.value.0, ev.parsed.value.1, ev.seekFault)] else []
    else if HasNewline(held) && ev.openOk then AppendOps(wfd, held, ev.writeFault)
    else []
  }

  /** Whether an echo may follow: after a seek, which the device may still refuse, or after a packet
      that has been appended and the buffer reset. */
  predicate MayEcho(ev: Recv, held: Bytes) {
    if SEEKTO <= held then ev.parsed.Some?
    else HasNewline(held) && ev.openOk && ev.writeFault == NoFault && ev.mallocOk
  }

  /** The run `trace`, what the handler does next, and an echo of `turns` reads. */
  function Acted(trace: seq<Op>, ev: Recv, held: Bytes, fd: Fd, wfd: Fd, turns: nat): seq<Op> {
    trace + Reaction(ev, held, fd, wfd) + DrainTrace(ev.drain, fd, turns)
  }

  /** Whether the chunk gets into the buffer. */
  predicate Fitted(ev: Recv, tail: Bytes) {
    ev.reallocOk || |tail| + |ev.chunk| < BUFFER_SIZE
  }

  /** The run `trace` and what happens to the device from one recv() to the next: the other threads'
      operations, and then the handler's. */
  function EventTrace(trace: seq<Op>, ev: Recv, tail: Bytes, fd: Fd, wfd: Fd, turns: nat): seq<Op> {
    if Fitted(ev, tail) then Acted(trace + ev.others, ev, tail + ev.chunk, fd, wfd, turns) else trace + ev.others
  }

  /** The chunk completes a seek command that parses. */
  predicate AsksSeek(ev: Recv, tail: Bytes) {
    Fitted(ev, tail) && SEEKTO <= tail + ev.chunk && ev.parsed.Some?
  }

  /** The device, in state `s`, refuses the seek that the chunk asks for. */
  predicate Refuses(ev: Recv, tail: Bytes, s: State, fd: Fd) {
    && AsksSeek(ev, tail)
    && SeekStep(s, fd, ev.parsed.value.0, ev.parsed.value.1, ev.seekFault).1.ret != 0
  }

  /** The chunk is followed by an echo. */
  predicate Echoes(ev: Recv, tail: Bytes, s: State, fd: Fd) {
    Fitted(ev, tail) && MayEcho(ev, tail + ev.chunk) && !Refuses(ev, tail, s, fd)
  }

  /** Seeking to byte `o` of slot `c` in `s` and echoing until `t` has added to what was sent all of the
      contents from there on, unless some of them were evicted meanwhile. */
  ghost predicate SentFrom(s: State, t: State, c: nat, o: nat, before: Bytes, sent: Bytes) {
    && SeekAccepted(s.log, c, o)
    && (EvictedCount(t) == EvictedCount(s) ==>
          && SeekTarget(s.log, c, o) < |Contents(t)|
          && sent == before + From(Contents(t), SeekTarget(s.log, c, o)))
  }

  /** A seek that was accepted, and an echo that caught up. */
  lemma SeekThenEcho(s: State, fd: Fd, writeCmd: int, cmdOffset: int, fault: Fault,
                     u: State, t: State, more: Bytes, before: Bytes)
    requires SeekStep(s, fd, writeCmd, cmdOffset, fault).1.ret == 0
    requires SeekStep(s, fd, writeCmd, cmdOffset, fault).0 == u
    requires u.log <= t.log && CaughtUp(u, t, more, fd)
    ensures SentFrom(s, t, ToUint32(writeCmd), ToUint32(cmdOffset), before, before + more)
  {
    var c, o := ToUint32(writeCmd), ToUint32(cmdOffset);
    SeekStaysInside(s.log, c, o);
    assert u == Move(s, fd, SeekTarget(s.log, c, o));
    if EvictedCount(t) == EvictedCount(s) {
      ContentsGrow(u, t);
    }
  }

  /** For the numbers a client means: the position sought is byte `o` of slot `c`, as it wrote them. */
  lemma SeekCommandThenEcho(s: State, fd: Fd, c: int, o: int, fault: Fault, u: State, t: State, more: Bytes,
                            before: Bytes)
    requires 0 <= c < INT_LIMIT && 0 <= o < INT_LIMIT
    requires SeekStep(s, fd, c, o, fault).1.ret == 0 && SeekStep(s, fd, c, o, fault).0 == u
    requires u.log <= t.log && CaughtUp(u, t, more, fd)
    ensures SentFrom(s, t, c, o, before, before + more)
  {
    SeekThenEcho(s, fd, c, o, fault, u, t, more, before);
  }

  /** A negative number is refused, as the cast makes it too large: as a command always, as an offset unless
      the command sought has more than 2^31 bytes. */
  lemma NegativeSeekIsRefused(s: State, fd: Fd, c: int, o: int, fault: Fault)
    requires -INT_LIMIT <= c < INT_LIMIT && -INT_LIMIT <= o < INT_LIMIT
    ensures c < 0 ==> SeekStep(s, fd, c, o, fault).1.ret < 0 && SeekStep(s, fd, c, o, fault).0 == s
    ensures o < 0 && SeekStep(s, fd, c, o, fault).1.ret >= 0 ==>
              0 <= c < CAPACITY && |Slots(s.log, [])[c]| > INT_LIMIT
  {
    FailuresAreExact(s, SeekOp(fd, c, o, fault));
  }

  /** Everything goes well around one recv(), except that the device may refuse a seek. */
  predicate Smooth(ev: Recv) {
    && ev.reallocOk && ev.mallocOk && ev.openOk
    && ev.writeFault == NoFault
    && NoShortSend(ev.drain)
  }

  predicate AllSmooth(input: seq<Recv>, n: nat)
    requires n <= |input|
  {
    forall i :: 0 <= i < n ==> Smooth(input[i])
  }

  /** No read of an echo fails. */
  predicate AllReadable(input: seq<Recv>, n: nat)
    requires n <= |input|
  {
    forall i :: 0 <= i < n ==> NoReadFault(input[i].drain)
  }

  /** No chunk carries a seek command that parses. */
  predicate NoSeeks(input: seq<Recv>, n: nat)
    requires n <= |input|
  {
    forall i :: 0 <= i < n ==> input[i].parsed.None?
  }

  lemma AllStep(input: seq<Recv>, i: nat)
    requires i < |input|
    ensures AllSmooth(input, i + 1) == (AllSmooth(input, i) && Smooth(input[i]))
    ensures AllReadable(input, i + 1) == (AllReadable(input, i) && NoReadFault(input[i].drain))
    ensures NoSeeks(input, i + 1) == (NoSeeks(input, i) && input[i].parsed.None?)
  {
  }

  function Chunks(input: seq<Recv>): seq<Bytes> {
    seq(|input|, i requires 0 <= i < |input| => input[i].chunk)
  }

  /** `fd` was given nothing by the first `n` operations, and the others evicted nothing. */
  ghost predicate NoLossSince(s: State, past: seq<Op>, n: nat, fd: Fd)
    requires n <= |past|
  {
    ReadBy(s, past[..n], fd) == [] && EvictedCount(Run(s, past[..n])) == EvictedCount(Run(s, past))
  }

  /** What holds of the bytes sent once an echo has read to the end, the run `past` having by then taken
      the device on from `s`. If there was no loss since some point of that run, such as the start of
      the first echo, and no seek, then all of the contents were sent. */
  ghost predicate Echoed(complete: bool, sought: bool, s: State, past: seq<Op>, sent: Bytes, fd: Fd) {
    complete && !sought ==>
      forall n :: 0 <= n <= |past| && NoLossSince(s, past, n, fd) ==> sent == Contents(Run(s, past))
  }

  /** A connection that does not seek, and whose last read met the end, has been sent the whole
      contents by all its echoes together, each byte once, if there was no loss since some point:
      however full the ring was, and whoever else wrote. */
  lemma EchoIsWholeContents(s: State, trace: seq<Op>, t: State, sent: Bytes, packets: seq<Bytes>, n: nat,
                            fd: Fd, wfd: Fd)
    requires Traced(s, trace, t, sent, packets, false, fd, wfd) && Pos(s, fd) == 0
    requires Pos(t, fd) >= |Contents(t)| && n <= |trace| && NoLossSince(s, trace, n, fd)
    ensures sent == Contents(t)
  {
    ReadsGiveContents(s, trace, n, fd);
  }

  lemma EchoEnds(s: State, trace: seq<Op>, t: State, sent: Bytes, packets: seq<Bytes>, sought: bool, eof: bool,
                 fd: Fd, wfd: Fd)
    requires eof ==> Traced(s, trace, t, sent, packets, sought, fd, wfd)
    requires eof ==> Pos(s, fd) == 0 && Pos(t, fd) >= |Contents(t)|
    ensures Echoed(eof, sought, s, trace, sent, fd)
  {
    if eof && !sought {
      forall n | 0 <= n <= |trace| && NoLossSince(s, trace, n, fd)
        ensures sent == Contents(t)
      {
        EchoIsWholeContents(s, trace, t, sent, packets, n, fd, wfd);
      }
    }
  }

  // ---------------------------------------------------------------- the record of a connection

  /** What one connection has done to the device, and what it has been given. */
  datatype Journal = Journal(
    start: State,         // the device when `fd` was opened
    trace: seq<Op>,       // the device's run since then, all threads
    delivered: Bytes,     // what that run gave to `fd`
    packets: seq<Bytes>,  // what it took from `wfd`
    sought: bool,         // some seek command reached the device
    refused: bool,        // the device refused one
    cut: bool,            // some send() fell short
    complete: bool,       // the last echo read to the end
    past: seq<Op>)        // the run up to the end of the last echo

  /** The journal fits a device in state `view` and a client that has been sent `sent`. */
  ghost predicate Fits(j: Journal, view: State, sent: Bytes, fd: Fd, wfd: Fd) {
    && fd != wfd && Pos(j.start, fd) == 0
    && Traced(j.start, j.trace, view, j.delivered, j.packets, j.sought, fd, wfd)
    && sent <= j.delivered && (!j.cut ==> sent == j.delivered)
    && Echoed(j.complete, j.sought, j.start, j.past, sent, fd)
    && (j.refused ==> j.sought)
    && j.past <= j.trace
  }

  function Opened(s: State): Journal {
    Journal(s, [], [], [], false, false, false, false, [])
  }

  lemma OpenedFits(s: State, fd: Fd, wfd: Fd)
    requires fd != wfd && Pos(s, fd) == 0
    ensures Fits(Opened(s), s, [], fd, wfd)
  {
  }

  /** A piece of the device's run that gives `fd` nothing. */
  function Noted(j: Journal, ops: seq<Op>, taken: seq<Bytes>, seeks: bool, refused: bool): Journal {
    j.(trace := j.trace + ops, packets := j.packets + taken,
       sought := j.sought || seeks, refused := j.refused || refused)
  }

  lemma NotedFits(j: Journal, t: State, sent: Bytes, fd: Fd, wfd: Fd,
                  ops: seq<Op>, view: State, taken: seq<Bytes>, seeks: bool, refused: bool)
    requires Fits(j, t, sent, fd, wfd) && Traced(t, ops, view, [], taken, seeks, fd, wfd) && (refused ==> seeks)
    ensures Fits(Noted(j, ops, taken, seeks, refused), view, sent, fd, wfd)
  {
    TracedThenTraced(j.start, j.trace, t, j.delivered, j.packets, j.sought, ops, view, [], taken, seeks, fd, wfd);
    EmptyTail(j.delivered);
  }

  lemma AppendFits(j: Journal, t: State, sent: Bytes, packet: Bytes, fault: Fault, fd: Fd, wfd: Fd)
    requires Fits(j, t, sent, fd, wfd)
    ensures var ops, taken := AppendOps(wfd, packet, fault), if fault == NoFault then [packet] else [];
            Fits(Noted(j, ops, taken, false, false), Run(t, ops), sent, fd, wfd)
  {
    var ops, taken := AppendOps(wfd, packet, fault), if fault == NoFault then [packet] else [];
    AppendTraced(t, packet, fault, fd, wfd);
    NotedFits(j, t, sent, fd, wfd, ops, Run(t, ops), taken, false, false);
  }

  /** An echo whose run is `ops`, which gave `fd` the bytes `given`. */
  function AfterEcho(j: Journal, ops: seq<Op>, given: Bytes, cut: bool, complete: bool): Journal {
    j.(trace := j.trace + ops, delivered := j.delivered + given,
       cut := cut, complete := complete, past := j.trace + ops)
  }

  lemma AfterEchoFits(j: Journal, t: State, sent: Bytes, fd: Fd, wfd: Fd,
                      ops: seq<Op>, view: State, given: Bytes, more: Bytes, cut: bool, complete: bool)
    requires Fits(j, t, sent, fd, wfd) && !j.cut && Traced(t, ops, view, given, [], false, fd, wfd)
    requires more <= given && (!cut ==> more == given)
    requires complete ==> !cut && Pos(view, fd) >= |Contents(view)|
    ensures Fits(AfterEcho(j, ops, given, cut, complete), view, sent + more, fd, wfd)
  {
    TracedThenTraced(j.start, j.trace, t, j.delivered, j.packets, j.sought, ops, view, given, [], false, fd, wfd);
    assert j.packets + [] == j.packets;
    PrefixBehind(sent, more, given);
    EchoEnds(j.start, j.trace + ops, view, sent + more, j.packets, j.sought, complete, fd, wfd);
  }

  /** An echo from `s` has `turns` reads and ends as the journal says. */
  ghost predicate Went(s: State, plan: seq<DrainStep>, fd: Fd, turns: nat, j: Journal) {
    DrainLasts(s, plan, fd, turns, j.cut) && (j.complete <==> DrainCompletes(s, plan, fd))
  }

  /** An echo goes into the journal with its exact length and end. */
  lemma EchoGoesIn(j: Journal, t: State, sent: Bytes, plan: seq<DrainStep>, fd: Fd, wfd: Fd, turns: nat,
                   view: State, given: Bytes, last: int, ret: int, more: Bytes)
    requires Fits(j, t, sent, fd, wfd) && !j.cut && turns > 0
    requires DrainRan(t, plan, fd, turns, view, given, last) && (last == 0 ==> Left(view, fd) <= 0)
    requires Traced(t, DrainTrace(plan, fd, turns), view, given, [], false, fd, wfd)
    requires SentUpTo(ret, more, given, last, StepAt(plan, turns - 1).short)
    ensures var j' := AfterEcho(j, DrainTrace(plan, fd, turns), given, ret != 0, last == 0);
            Fits(j', view, sent + more, fd, wfd) && Went(t, plan, fd, turns, j')
  {
    CompletesIff(t, plan, fd, turns, view, given, last);
    AfterEchoFits(j, t, sent, fd, wfd, DrainTrace(plan, fd, turns), view, given, more, ret != 0, last == 0);
  }

  /** The packets appended are those that the framing of `chunks` gives. */
  ghost predicate InStep(j: Journal, chunks: seq<Bytes>) {
    j.packets == Frame(chunks).packets
  }

  /** The last echo came after the last packet and read to the end, or no packet has come yet. */
  ghost predicate UpToDate(j: Journal, wfd: Fd) {
    j.packets == [] || (j.complete && WritesBy(j.past, wfd) == j.packets)
  }

  lemma WithoutEcho(trace: seq<Op>, ev: Recv, held: Bytes, fd: Fd, wfd: Fd)
    ensures Acted(trace, ev, held, fd, wfd, 0) == trace + Reaction(ev, held, fd, wfd)
    ensures Reaction(ev, held, fd, wfd) == [] ==> Acted(trace, ev, held, fd, wfd, 0) == trace
  {
  }

  /** How a chunk was answered that found `tail` in the buffer, from device state `s` and bytes `before`
      sent to device state `t` and bytes `sent`: with an echo exactly if it has one, as long as the
      device makes it, and nothing is sent otherwise; a seek that was accepted has been answered with
      the contents from the position sought. */
  ghost predicate Answered(ev: Recv, tail: Bytes, taken: bool, turns: nat, s: State, before: Bytes,
                           j0: Journal, j: Journal, t: State, sent: Bytes, fd: Fd, wfd: Fd)
  {
    && (turns > 0 <==> Echoes(ev, tail, s, fd))
    && (j.sought <==> j0.sought || AsksSeek(ev, tail))
    && (j.refused <==> j0.refused || Refuses(ev, tail, s, fd))
    && (turns == 0 ==> sent == before && !j.cut && j.past == j0.past && j.complete == j0.complete)
    && (turns > 0 ==> j.past == j.trace && Went(Run(s, Reaction(ev, tail + ev.chunk, fd, wfd)), ev.drain, fd, turns, j))
    && (taken && SEEKTO <= tail + ev.chunk && ev.parsed.Some? && j.complete ==>
          SentFrom(s, t, ToUint32(ev.parsed.value.0), ToUint32(ev.parsed.value.1), before, sent))
  }

  lemma SeekSends(s: State, ev: Recv, complete: bool, t: State, more: Bytes, before: Bytes, fd: Fd)
    requires ev.parsed.Some?
    requires var (u, out) := SeekStep(s, fd, ev.parsed.value.0, ev.parsed.value.1, ev.seekFault);
             complete ==> out.ret == 0 && u.log <= t.log && CaughtUp(u, t, more, fd)
    ensures complete ==> SentFrom(s, t, ToUint32(ev.parsed.value.0), ToUint32(ev.parsed.value.1),
                                  before, before + more)
  {
    if complete {
      var u := SeekStep(s, fd, ev.parsed.value.0, ev.parsed.value.1, ev.seekFault).0;
      SeekThenEcho(s, fd, ev.parsed.value.0, ev.parsed.value.1, ev.seekFault, u, t, more, before);
    }
  }

  lemma SeekRun(s: State, fd: Fd, writeCmd: int, cmdOffset: int, fault: Fault)
    ensures Run(s, [SeekOp(fd, writeCmd, cmdOffset, fault)]) == SeekStep(s, fd, writeCmd, cmdOffset, fault).0
  {
    var op := SeekOp(fd, writeCmd, cmdOffset, fault);
    RunAppend(s, [], op);
    assert [] + [op] == [op];
  }

  /** The journal once a seek has been tried and, if the device took it, an echo of `turns` reads made. */
  function SeekJournal(j: Journal, ev: Recv, given: Bytes, go: bool, complete: bool, turns: nat, fd: Fd): Journal
    requires ev.parsed.Some?
  {
    var op := SeekOp(fd, ev.parsed.value.0, ev.parsed.value.1, ev.seekFault);
    var j' := Noted(j, [op], [], true, turns == 0);
    if turns == 0 then j' else AfterEcho(j', DrainTrace(ev.drain, fd, turns), given, !go, complete)
  }

  lemma SeekAnswered(j: Journal, j': Journal, ev: Recv, tail: Bytes, given: Bytes, go: bool, turns: nat,
                     s: State, before: Bytes, t: State, sent: Bytes, fd: Fd, wfd: Fd)
    requires SEEKTO <= tail + ev.chunk && ev.parsed.Some? && Fitted(ev, tail) && !j.cut
    requires j' == SeekJournal(j, ev, given, go, j'.complete, turns, fd)
    requires turns == 0 ==> sent == before && !go
    requires var c, o := ev.parsed.value.0, ev.parsed.value.1;
             var (u, out) := SeekStep(s, fd, c, o, ev.seekFault);
             && (turns > 0 <==> out.ret == 0)
             && (turns > 0 ==> Went(u, ev.drain, fd, turns, j'))
             && (go && j'.complete ==> SentFrom(s, t, ToUint32(c), ToUint32(o), before, sent))
    ensures Answered(ev, tail, go, turns, s, before, j, j', t, sent, fd, wfd)
    ensures j'.trace == Acted(j.trace, ev, tail + ev.chunk, fd, wfd, turns)
  {
    SeekRun(s, fd, ev.parsed.value.0, ev.parsed.value.1, ev.seekFault);
    WithoutEcho(j.trace, ev, tail + ev.chunk, fd, wfd);
  }

  /** The environment does not stop the loop at this chunk: every allocation, open and write it leads to
      succeeds. */
  predicate Unhindered(ev: Recv, tail: Bytes) {
    var held := tail + ev.chunk;
    && Fitted(ev, tail)
    && (SEEKTO <= held ==> ev.mallocOk)
    && (!(SEEKTO <= held) && HasNewline(held) ==> ev.openOk && ev.writeFault == NoFault && ev.mallocOk)
  }

  /** The loop goes on after this chunk, with journal `j`: nor did a send fall short or the device refuse
      a seek. */
  predicate GoesOn(ev: Recv, tail: Bytes, j: Journal) {
    Unhindered(ev, tail) && !j.cut && !j.refused
  }

  /** The chunk is dealt with: appended if it completes a packet, and the seek made if it is a command. */
  predicate DealtWith(ev: Recv, tail: Bytes, j: Journal) {
    var held := tail + ev.chunk;
    && Fitted(ev, tail)
    && (SEEKTO <= held ==> !j.cut && !j.refused)
    && (!(SEEKTO <= held) && HasNewline(held) ==> ev.openOk && ev.writeFault == NoFault)
  }

  lemma ChunksStep(input: seq<Recv>, i: nat)
    requires i < |input|
    ensures Chunks(input)[..i + 1] == Chunks(input)[..i] + [input[i].chunk]
  {
  }

  /** What a seek command does to the journal. */
  ghost predicate SeekDealtWith(j: Journal, j': Journal, wfd: Fd, ev: Recv, go: bool) {
    && j'.start == j.start && j'.packets == j.packets
    && (go ==> !j'.cut)
    && (ev.parsed.None? ==> go && j' == j)
    && (!j.cut && !j.refused ==> (go <==> !j'.cut && !j'.refused))
    && (ev.parsed.Some? && go && NoReadFault(ev.drain) ==> j'.complete)
    && (NoShortSend(ev.drain) ==> go || j'.refused)
    && (NoShortSend(ev.drain) && NoReadFault(ev.drain) && UpToDate(j, wfd) ==> UpToDate(j', wfd))
  }

  lemma SeekIsDealtWith(j: Journal, j': Journal, ev: Recv, given: Bytes, go: bool, turns: nat,
                        t: State, sent: Bytes, fd: Fd, wfd: Fd)
    requires ev.parsed.Some? && !j.cut && Fits(j', t, sent, fd, wfd)
    requires j' == SeekJournal(j, ev, given, go, j'.complete, turns, fd)
    requires turns == 0 ==> !go
    requires turns > 0 && NoShortSend(ev.drain) ==> go
    requires turns > 0 && NoReadFault(ev.drain) ==> !go || j'.complete
    ensures SeekDealtWith(j, j', wfd, ev, go)
  {
    assert j.packets + [] == j.packets;
  }

  lemma NothingSought(j: Journal, ev: Recv, tail: Bytes, s: State, before: Bytes, fd: Fd, wfd: Fd)
    requires SEEKTO <= tail + ev.chunk && ev.parsed.None? && !j.cut
    ensures SeekDealtWith(j, j, wfd, ev, true)
    ensures Answered(ev, tail, true, 0, s, before, j, j, s, before, fd, wfd)
    ensures j.trace == Acted(j.trace, ev, tail + ev.chunk, fd, wfd, 0)
  {
    WithoutEcho(j.trace, ev, tail + ev.chunk, fd, wfd);
  }

  /** What a chunk does to the journal: the packets stay those of the framing, exactly when the loop goes
      on and the chunk is dealt with, and what holds when nothing fails. */
  ghost predicate Progressed(j: Journal, j': Journal, wfd: Fd, ev: Recv, chunks: seq<Bytes>, go: bool, taken: bool) {
    && j'.start == j.start
    && InStep(j', if taken then chunks + [ev.chunk] else chunks)
    && (go ==> taken && !j'.cut)
    && (!j.cut && !j.refused ==>
          && (go <==> GoesOn(ev, Frame(chunks).tail, j'))
          && (taken <==> DealtWith(ev, Frame(chunks).tail, j')))
    && (ev.parsed.None? ==> j'.sought == j.sought)
    && (Smooth(ev) ==> go || j'.refused)
    && (Smooth(ev) && NoReadFault(ev.drain) && UpToDate(j, wfd) ==> UpToDate(j', wfd))
  }

  lemma AnsweredAfterOthers(ev: Recv, tail: Bytes, taken: bool, turns: nat, s: State, before: Bytes,
                            j: Journal, j': Journal, j'': Journal, t: State, sent: Bytes, fd: Fd, wfd: Fd)
    requires j' == Noted(j, ev.others, [], false, false)
    requires Answered(ev, tail, taken, turns, s, before, j', j'', t, sent, fd, wfd)
    ensures Answered(ev, tail, taken, turns, s, before, j, j'', t, sent, fd, wfd)
  {
  }

  lemma ProgressedAfterOthers(j: Journal, j': Journal, j'': Journal, wfd: Fd, ev: Recv, chunks: seq<Bytes>,
                              go: bool, taken: bool)
    requires j' == Noted(j, ev.others, [], false, false) && Progressed(j', j'', wfd, ev, chunks, go, taken)
    ensures Progressed(j, j'', wfd, ev, chunks, go, taken)
  {
    assert j.packets + [] == j.packets;
  }

  /** The journal once a packet has been dealt with: appended if the file could be opened, and then, in
      that order, an echo of `turns` reads that gave `given`. */
  function PacketJournal(j: Journal, ev: Recv, held: Bytes, given: Bytes, go: bool, complete: bool, turns: nat,
                         fd: Fd, wfd: Fd): Journal
  {
    if !ev.openOk then j
    else
      var taken := if ev.writeFault == NoFault then [held] else [];
      var j' := Noted(j, AppendOps(wfd, held, ev.writeFault), taken, false, false);
      if turns == 0 then j' else AfterEcho(j', DrainTrace(ev.drain, fd, turns), given, !go, complete)
  }

  lemma PacketProgressed(j: Journal, j': Journal, ev: Recv, chunks: seq<Bytes>, tail: Bytes,
                         given: Bytes, go: bool, turns: nat, fd: Fd, wfd: Fd)
    requires Frame(chunks) == Framing(j.packets, tail) && !j.cut && Fitted(ev, tail)
    requires WritesBy(j'.trace, wfd) == j'.packets
    requires HasNewline(tail + ev.chunk) && !(SEEKTO <= tail + ev.chunk)
    requires turns > 0 <==> MayEcho(ev, tail + ev.chunk)
    requires turns == 0 ==> !go
    requires Smooth(ev) ==> go && (NoReadFault(ev.drain) ==> j'.complete)
    requires j' == PacketJournal(j, ev, tail + ev.chunk, given, go, j'.complete, turns, fd, wfd)
    ensures Progressed(j, j', wfd, ev, chunks, go, ev.openOk && ev.writeFault == NoFault)
  {
    FrameCases(chunks, ev.chunk, j.packets, tail);
    assert j.packets + [] == j.packets;
  }

  lemma PacketAnswered(j: Journal, j': Journal, ev: Recv, tail: Bytes, given: Bytes, go: bool, turns: nat,
                       s: State, before: Bytes, t: State, sent: Bytes, taken: bool, fd: Fd, wfd: Fd)
    requires HasNewline(tail + ev.chunk) && !(SEEKTO <= tail + ev.chunk) && Fitted(ev, tail) && !j.cut
    requires j' == PacketJournal(j, ev, tail + ev.chunk, given, go, j'.complete, turns, fd, wfd)
    requires turns > 0 <==> MayEcho(ev, tail + ev.chunk)
    requires turns == 0 ==> sent == before
    requires turns > 0 ==>
               Went(Run(s, AppendOps(wfd, tail + ev.chunk, ev.writeFault)), ev.drain, fd, turns, j')
    ensures Answered(ev, tail, taken, turns, s, before, j, j', t, sent, fd, wfd)
    ensures j'.trace == Acted(j.trace, ev, tail + ev.chunk, fd, wfd, turns)
  {
    WithoutEcho(j.trace, ev, tail + ev.chunk, fd, wfd);
  }

  lemma SeekProgressed(j: Journal, j': Journal, ev: Recv, chunks: seq<Bytes>, tail: Bytes, go: bool, go': bool, wfd: Fd)
    requires Frame(chunks) == Framing(j.packets, tail) && SEEKTO <= tail + ev.chunk && Fitted(ev, tail)
    requires SeekDealtWith(j, j', wfd, ev, go) && (go' <==> go && ev.mallocOk)
    ensures Progressed(j, j', wfd, ev, chunks, go', go)
  {
    FrameCases(chunks, ev.chunk, j.packets, tail);
  }

  lemma NothingProgressed(j: Journal, ev: Recv, chunks: seq<Bytes>, tail: Bytes,
                          s: State, before: Bytes, fd: Fd, wfd: Fd)
    requires Frame(chunks) == Framing(j.packets, tail) && !j.cut && Fitted(ev, tail)
    requires !(SEEKTO <= tail + ev.chunk) && !HasNewline(tail + ev.chunk)
    ensures j.trace == Acted(j.trace, ev, tail + ev.chunk, fd, wfd, 0)
    ensures Progressed(j, j, wfd, ev, chunks, true, true)
    ensures Answered(ev, tail, true, 0, s, before, j, j, s, before, fd, wfd)
  {
    FrameCases(chunks, ev.chunk, j.packets, tail);
    WithoutEcho(j.trace, ev, tail + ev.chunk, fd, wfd);
  }

  lemma UnfittedProgressed(j: Journal, ev: Recv, chunks: seq<Bytes>, s: State, before: Bytes, fd: Fd, wfd: Fd)
    requires InStep(j, chunks) && !Fitted(ev, Frame(chunks).tail) && !j.cut
    ensures Progressed(j, j, wfd, ev, chunks, false, false)
    ensures Answered(ev, Frame(chunks).tail, false, 0, s, before, j, j, s, before, fd, wfd)
  {
  }

  /** What holds after the first `n` chunks: without seek commands nothing was sought; if nothing went
      wrong, the loop is still going or the device refused a seek; if no read failed either, the
      client is up to date. */
  ghost predicate KeepsUp(j: Journal, wfd: Fd, input: seq<Recv>, n: nat, going: bool)
    requires n <= |input|
  {
    && (NoSeeks(input, n) ==> !j.sought)
    && (AllSmooth(input, n) ==> going || j.refused)
    && (AllSmooth(input, n) && AllReadable(input, n) ==> UpToDate(j, wfd))
  }

  lemma KeepsUpOneMore(j: Journal, j': Journal, wfd: Fd, input: seq<Recv>, i: nat, go: bool, taken: bool)
    requires i < |input| && KeepsUp(j, wfd, input, i, true)
    requires Progressed(j, j', wfd, input[i], Chunks(input)[..i], go, taken)
    ensures KeepsUp(j', wfd, input, i + 1, go)
  {
    AllStep(input, i);
  }

  lemma KeepsUpToTheEnd(j: Journal, wfd: Fd, input: seq<Recv>, n: nat, going: bool, finished: bool)
    requires n <= |input| && KeepsUp(j, wfd, input, n, going) && (going ==> finished)
    ensures KeepsUp(j, wfd, input, |input|, finished)
  {
    assert AllSmooth(input, |input|) ==> AllSmooth(input, n);
    assert AllReadable(input, |input|) ==> AllReadable(input, n);
    assert NoSeeks(input, |input|) ==> NoSeeks(input, n);
  }

  /** The device's run over the first `|turns|` chunks: what the input gives the other threads, what the
      framing makes the handler do, and an echo of `turns[i]` reads after chunk `i`. */
  function InputTrace(input: seq<Recv>, turns: seq<nat>, fd: Fd, wfd: Fd): seq<Op>
    requires |turns| <= |input|
  {
    if turns == [] then []
    else
      var m := |turns| - 1;
      EventTrace(InputTrace(input, turns[..m], fd, wfd), input[m], Frame(Chunks(input)[..m]).tail,
                 fd, wfd, turns[m])
  }

  lemma InputTraceStep(input: seq<Recv>, turns: seq<nat>, n: nat, fd: Fd, wfd: Fd)
    requires |turns| < |input|
    ensures InputTrace(input, turns + [n], fd, wfd)
         == EventTrace(InputTrace(input, turns, fd, wfd), input[|turns|], Frame(Chunks(input)[..|turns|]).tail,
                       fd, wfd, n)
  {
    assert (turns + [n])[..|turns|] == turns;
  }

  /** What the buffer holds when chunk `i` comes. */
  function TailAt(input: seq<Recv>, i: nat): Bytes
    requires i < |input|
  {
    Frame(Chunks(input)[..i]).tail
  }

  /** The run up to where chunk `i` is dealt with. */
  function RunToChunk(input: seq<Recv>, turns: seq<nat>, i: nat, fd: Fd, wfd: Fd): seq<Op>
    requires i < |turns| <= |input|
  {
    InputTrace(input, turns[..i], fd, wfd) + input[i].others
  }

  /** The run up to the echo after chunk `i`. */
  function RunToEcho(input: seq<Recv>, turns: seq<nat>, i: nat, fd: Fd, wfd: Fd): seq<Op>
    requires i < |turns| <= |input|
  {
    RunToChunk(input, turns, i, fd, wfd) + Reaction(input[i], TailAt(input, i) + input[i].chunk, fd, wfd)
  }

  /** Chunk `i` has been answered: by an echo exactly if it has one, which has as many reads as the device
      gives it; no seek was refused and no send fell short, unless that is how the journal says the run
      ended. */
  ghost predicate AnsweredAt(j: Journal, input: seq<Recv>, turns: seq<nat>, i: nat, fd: Fd, wfd: Fd)
    requires i < |turns| <= |input|
  {
    var s, last := Run(j.start, RunToChunk(input, turns, i, fd, wfd)), i + 1 == |turns|;
    && (turns[i] > 0 <==> Echoes(input[i], TailAt(input, i), s, fd))
    && (Refuses(input[i], TailAt(input, i), s, fd) <==> last && j.refused)
    && (turns[i] == 0 && last ==> !j.cut)
    && (turns[i] > 0 ==>
          DrainLasts(Run(j.start, RunToEcho(input, turns, i, fd, wfd)), input[i].drain, fd, turns[i], last && j.cut))
  }

  /** The run up to the end of the last echo, if there was one. */
  function PastEcho(input: seq<Recv>, turns: seq<nat>, fd: Fd, wfd: Fd): seq<Op>
    requires |turns| <= |input|
  {
    if turns == [] then []
    else
      var m := |turns| - 1;
      if turns[m] > 0 then InputTrace(input, turns, fd, wfd) else PastEcho(input, turns[..m], fd, wfd)
  }

  /** The last echo, if there was one, ended with a read at the end of the contents. */
  ghost predicate EchoCompleted(start: State, input: seq<Recv>, turns: seq<nat>, fd: Fd, wfd: Fd)
    requires |turns| <= |input|
  {
    var m := |turns| - 1;
    turns != [] &&
    if turns[m] > 0 then DrainCompletes(Run(start, RunToEcho(input, turns, m, fd, wfd)), input[m].drain, fd)
    else EchoCompleted(start, input, turns[..m], fd, wfd)
  }

  /** Some of the first `n` chunks asks for a seek. */
  predicate SeekAsked(input: seq<Recv>, n: nat)
    requires n <= |input|
  {
    n > 0 && (SeekAsked(input, n - 1) || AsksSeek(input[n - 1], TailAt(input, n - 1)))
  }

  /** What the journal says of the last echo and of seeks is so. */
  ghost predicate TrueToRun(j: Journal, input: seq<Recv>, turns: seq<nat>, fd: Fd, wfd: Fd)
    requires |turns| <= |input|
  {
    && j.past == PastEcho(input, turns, fd, wfd)
    && (j.complete <==> EchoCompleted(j.start, input, turns, fd, wfd))
    && (j.sought <==> SeekAsked(input, |turns|))
  }

  /** The chunks so far: all but the last were unhindered, and each has been answered. All but perhaps the
      last were dealt with. */
  ghost predicate Served(j: Journal, input: seq<Recv>, turns: seq<nat>, handled: nat, fd: Fd, wfd: Fd) {
    && |turns| <= |input|
    && handled == Handled(j, input, turns)
    && (if turns == [] then !j.cut && !j.refused else AllUnhindered(input, |turns| - 1))
    && AllAnswered(j, input, turns, fd, wfd)
    && TrueToRun(j, input, turns, fd, wfd)
  }

  predicate AllUnhindered(input: seq<Recv>, n: nat)
    requires n <= |input|
  {
    forall i :: 0 <= i < n ==> Unhindered(input[i], TailAt(input, i))
  }

  lemma UnhinderedOneMore(input: seq<Recv>, n: nat)
    requires 0 < n <= |input| && AllUnhindered(input, n - 1) && Unhindered(input[n - 1], TailAt(input, n - 1))
    ensures AllUnhindered(input, n)
  {
  }

  ghost predicate AllAnswered(j: Journal, input: seq<Recv>, turns: seq<nat>, fd: Fd, wfd: Fd)
    requires |turns| <= |input|
  {
    forall i :: 0 <= i < |turns| ==> AnsweredAt(j, input, turns, i, fd, wfd)
  }

  /** How many chunks have been dealt with. */
  ghost function Handled(j: Journal, input: seq<Recv>, turns: seq<nat>): nat
    requires |turns| <= |input|
  {
    var m := |turns| - 1;
    if turns == [] then 0 else if DealtWith(input[m], TailAt(input, m), j) then m + 1 else m
  }

  /** The loop has gone on after every chunk so far. */
  ghost predicate Going(j: Journal, input: seq<Recv>, turns: seq<nat>)
    requires |turns| <= |input|
  {
    turns == [] || GoesOn(input[|turns| - 1], TailAt(input, |turns| - 1), j)
  }

  lemma AnsweredStays(j: Journal, j': Journal, input: seq<Recv>, turns: seq<nat>, longer: seq<nat>, i: nat,
                      fd: Fd, wfd: Fd)
    requires i < |turns| < |longer| <= |input| && turns <= longer && j'.start == j.start && !j.cut && !j.refused
    requires AnsweredAt(j, input, turns, i, fd, wfd)
    ensures AnsweredAt(j', input, longer, i, fd, wfd)
  {
    assert longer[..i] == turns[..i];
  }

  lemma AnsweredOneMore(j: Journal, j': Journal, input: seq<Recv>, turns: seq<nat>, longer: seq<nat>, fd: Fd, wfd: Fd)
    requires |turns| < |input| && AllAnswered(j, input, turns, fd, wfd) && (turns != [] ==> !j.cut && !j.refused)
    requires |longer| == |turns| + 1 && turns <= longer && j'.start == j.start
    requires AnsweredAt(j', input, longer, |turns|, fd, wfd)
    ensures AllAnswered(j', input, longer, fd, wfd)
  {
    forall i | 0 <= i < |longer|
      ensures AnsweredAt(j', input, longer, i, fd, wfd)
    {
      if i < |turns| {
        AnsweredStays(j, j', input, turns, longer, i, fd, wfd);
      }
    }
  }

  /** One more chunk. */
  lemma ServedOneMore(j: Journal, j': Journal, input: seq<Recv>, turns: seq<nat>, longer: seq<nat>, handled: nat,
                      fd: Fd, wfd: Fd)
    requires |turns| < |input| && Served(j, input, turns, |turns|, fd, wfd) && Going(j, input, turns)
    requires |longer| == |turns| + 1 && turns <= longer && j'.start == j.start
    requires handled == if DealtWith(input[|turns|], TailAt(input, |turns|), j') then |longer| else |turns|
    requires AnsweredAt(j', input, longer, |turns|, fd, wfd) && TrueToRun(j', input, longer, fd, wfd)
    ensures Served(j', input, longer, handled, fd, wfd)
  {
    AnsweredOneMore(j, j', input, turns, longer, fd, wfd);
    if turns != [] {
      UnhinderedOneMore(input, |turns|);
    }
  }

  /** What the answer to one chunk means in the run it is part of. */
  lemma AnsweredInRun(j: Journal, view: State, input: seq<Recv>, turns: seq<nat>, longer: seq<nat>, n: nat, taken: bool,
                      before: Bytes, j': Journal, t: State, sent: Bytes, fd: Fd, wfd: Fd)
    requires |turns| < |input| && longer == turns + [n] && j'.start == j.start && !j.refused
    requires view == Run(j.start, InputTrace(input, turns, fd, wfd)) && TrueToRun(j, input, turns, fd, wfd)
    requires j'.trace == InputTrace(input, longer, fd, wfd)
    requires var i := |turns|;
             Answered(input[i], TailAt(input, i), taken, n, Run(view, input[i].others), before,
                      j, j', t, sent, fd, wfd)
    ensures AnsweredAt(j', input, longer, |turns|, fd, wfd) && TrueToRun(j', input, longer, fd, wfd)
  {
    var i := |turns|;
    var own := Reaction(input[i], TailAt(input, i) + input[i].chunk, fd, wfd);
    assert longer[..i] == turns;
    RunConcat(j.start, InputTrace(input, turns, fd, wfd), input[i].others);
    RunConcat(j.start, InputTrace(input, turns, fd, wfd) + input[i].others, own);
  }

  /** Two accounts of one chunk, after the same run, agree on it and on how the connection ended if that
      was there. */
  lemma SameAnswer(j: Journal, j': Journal, input: seq<Recv>, turns: seq<nat>, turns': seq<nat>, i: nat,
                   fd: Fd, wfd: Fd)
    requires j.start == j'.start && i < |turns| <= |input| && i < |turns'| <= |input|
    requires turns[..i] == turns'[..i]
    requires AnsweredAt(j, input, turns, i, fd, wfd) && AnsweredAt(j', input, turns', i, fd, wfd)
    ensures turns[i] == turns'[i]
    ensures var last, last' := i + 1 == |turns|, i + 1 == |turns'|;
            (last && j.cut <==> last' && j'.cut) && (last && j.refused <==> last' && j'.refused)
  {
    assert RunToChunk(input, turns, i, fd, wfd) == RunToChunk(input, turns', i, fd, wfd);
    if turns[i] > 0 {
      DrainLastsOnce(Run(j.start, RunToEcho(input, turns, i, fd, wfd)), input[i].drain, fd,
                     turns[i], i + 1 == |turns| && j.cut, turns'[i], i + 1 == |turns'| && j'.cut);
    }
  }

  lemma AnswersAgree(j: Journal, j': Journal, input: seq<Recv>, turns: seq<nat>, turns': seq<nat>, i: nat,
                     fd: Fd, wfd: Fd)
    requires j.start == j'.start && i < |turns| <= |input| && i < |turns'| <= |input|
    requires turns[..i] == turns'[..i]
    requires AllAnswered(j, input, turns, fd, wfd) && AllAnswered(j', input, turns', fd, wfd)
    ensures turns[..i + 1] == turns'[..i + 1]
    ensures var last, last' := i + 1 == |turns|, i + 1 == |turns'|;
            (last && j.cut <==> last' && j'.cut) && (last && j.refused <==> last' && j'.refused)
  {
    SameAnswer(j, j', input, turns, turns', i, fd, wfd);
    assert turns[..i + 1] == turns[..i] + [turns[i]] && turns'[..i + 1] == turns'[..i] + [turns'[i]];
  }

  /** Two accounts of a connection over the same input agree on the chunks that both have got to ... */
  lemma {:induction false} TurnsAgree(j: Journal, j': Journal, input: seq<Recv>, turns: seq<nat>, turns': seq<nat>,
                                      n: nat, fd: Fd, wfd: Fd)
    requires j.start == j'.start && n <= |turns| <= |input| && n <= |turns'| <= |input|
    requires AllAnswered(j, input, turns, fd, wfd) && AllAnswered(j', input, turns', fd, wfd)
    ensures turns[..n] == turns'[..n]
    decreases n
  {
    if n == 0 {
    } else {
      TurnsAgree(j, j', input, turns, turns', n - 1, fd, wfd);
      AnswersAgree(j, j', input, turns, turns', n - 1, fd, wfd);
    }
  }

  // ---------------------------------------------------------------- isolation of whole connections

  /** Every write that the input gives to another thread is a whole packet. */
  predicate OthersAreWhole(input: seq<Recv>) {
    forall i :: 0 <= i < |input| ==> WholePackets(input[i].others) && PlanIsWhole(input[i].drain)
  }

  predicate PlanIsWhole(plan: seq<DrainStep>) {
    forall i :: 0 <= i < |plan| ==> WholePackets(plan[i].others)
  }

  lemma WholeConcat(a: seq<Op>, b: seq<Op>, w: Fd)
    requires OthersSendWholePackets(a, w) && OthersSendWholePackets(b, w)
    ensures OthersSendWholePackets(a + b, w)
  {
  }

  lemma {:induction false} DrainTraceIsWhole(plan: seq<DrainStep>, fd: Fd, wfd: Fd, n: nat)
    requires PlanIsWhole(plan)
    ensures OthersSendWholePackets(DrainTrace(plan, fd, n), wfd)
    decreases n
  {
    if n == 0 {
    } else {
      var step := StepAt(plan, n - 1);
      DrainTraceIsWhole(plan, fd, wfd, n - 1);
      WholeConcat(DrainTrace(plan, fd, n - 1), step.others, wfd);
      WholeConcat(DrainTrace(plan, fd, n - 1) + step.others, [Read(fd, BUFFER_SIZE, step.fault)], wfd);
    }
  }

  lemma EventTraceIsWhole(trace: seq<Op>, ev: Recv, tail: Bytes, fd: Fd, wfd: Fd, turns: nat)
    requires OthersSendWholePackets(trace, wfd) && WholePackets(ev.others) && PlanIsWhole(ev.drain)
    ensures OthersSendWholePackets(EventTrace(trace, ev, tail, fd, wfd, turns), wfd)
  {
    var own := Reaction(ev, tail + ev.chunk, fd, wfd);
    DrainTraceIsWhole(ev.drain, fd, wfd, turns);
    WholeConcat(trace, ev.others, wfd);
    WholeConcat(trace + ev.others, own, wfd);
    WholeConcat(trace + ev.others + own, DrainTrace(ev.drain, fd, turns), wfd);
  }

  /** The handler itself writes through no descriptor but the one it opens for a packet. */
  lemma {:induction false} InputTraceIsWhole(input: seq<Recv>, turns: seq<nat>, fd: Fd, wfd: Fd)
    requires |turns| <= |input| && OthersAreWhole(input)
    ensures OthersSendWholePackets(InputTrace(input, turns, fd, wfd), wfd)
    decreases |turns|
  {
    if turns == [] {
    } else {
      var m := |turns| - 1;
      var tail := Frame(Chunks(input)[..m]).tail;
      InputTraceIsWhole(input, turns[..m], fd, wfd);
      EventTraceIsWhole(InputTrace(input, turns[..m], fd, wfd), input[m], tail, fd, wfd, turns[m]);
    }
  }

  /** From `s` to `t` the log grew by whole packets, of which those of `wfd` are `packets` in order, and
      no partial command is left over. */
  ghost predicate Isolated(s: State, trace: seq<Op>, t: State, packets: seq<Bytes>, wfd: Fd) {
    && Pending(t) == []
    && t.log == s.log + Accepted(trace)
    && Pick(Accepted(trace), Writers(trace), wfd) == packets
  }

  /** Among threads that write whole packets only, a connection's packets are isolated. */
  lemma ConnectionIsIsolated(s: State, trace: seq<Op>, t: State, sent: Bytes, packets: seq<Bytes>, sought: bool,
                             fd: Fd, wfd: Fd, input: seq<Recv>, turns: seq<nat>, handled: nat)
    requires Traced(s, trace, t, sent, packets, sought, fd, wfd)
    requires handled <= |turns| <= |input| && trace == InputTrace(input, turns, fd, wfd)
    requires packets == Frame(Chunks(input)[..handled]).packets
    requires Pending(s) == [] && OthersAreWhole(input)
    ensures Isolated(s, trace, t, packets, wfd)
  {
    InputTraceIsWhole(input, turns, fd, wfd);
    PacketsAreNotSpliced(s, trace, t, sent, packets, sought, fd, wfd, Chunks(input)[..handled]);
  }

  /** What a connection has come to at the end of its input: it has gone through all of it, or has
      stopped at the first chunk after which the loop does not go on. */
  ghost predicate Concluded(j: Journal, t: State, fd: Fd, wfd: Fd, input: seq<Recv>, handled: nat, turns: seq<nat>) {
    && |turns| <= |input|
    && Served(j, input, turns, handled, fd, wfd)
    && (Going(j, input, turns) ==> |turns| == |input|)
    && InStep(j, Chunks(input)[..handled])
    && j.trace == InputTrace(input, turns, fd, wfd)
    && KeepsUp(j, wfd, input, |input|, handled == |input| && !j.cut)
    && (Pending(j.start) == [] && OthersAreWhole(input) ==> Isolated(j.start, j.trace, t, j.packets, wfd))
  }

  lemma ConcludeIsolated(j: Journal, t: State, sent: Bytes, fd: Fd, wfd: Fd, input: seq<Recv>, handled: nat,
                         turns: seq<nat>)
    requires Fits(j, t, sent, fd, wfd) && handled <= |turns| <= |input|
    requires InStep(j, Chunks(input)[..handled]) && j.trace == InputTrace(input, turns, fd, wfd)
    ensures Pending(j.start) == [] && OthersAreWhole(input) ==> Isolated(j.start, j.trace, t, j.packets, wfd)
  {
    if Pending(j.start) == [] && OthersAreWhole(input) {
      ConnectionIsIsolated(j.start, j.trace, t, j.delivered, j.packets, j.sought, fd, wfd, input, turns, handled);
    }
  }

  lemma Conclude(j: Journal, t: State, sent: Bytes, fd: Fd, wfd: Fd, input: seq<Recv>, handled: nat, turns: seq<nat>)
    requires Fits(j, t, sent, fd, wfd) && handled <= |turns| <= |input|
    requires Served(j, input, turns, handled, fd, wfd)
    requires Going(j, input, turns) ==> |turns| == |input|
    requires InStep(j, Chunks(input)[..handled]) && j.trace == InputTrace(input, turns, fd, wfd)
    requires KeepsUp(j, wfd, input, |input|, handled == |input| && !j.cut)
    ensures Concluded(j, t, fd, wfd, input, handled, turns)
  {
    ConcludeIsolated(j, t, sent, fd, wfd, input, handled, turns);
  }

  /** ... and none stops where another goes on. */
  lemma NotBehind(j: Journal, j': Journal, input: seq<Recv>, turns: seq<nat>, turns': seq<nat>, fd: Fd, wfd: Fd)
    requires j.start == j'.start && |turns| <= |input| && |turns'| <= |input|
    requires AllAnswered(j, input, turns, fd, wfd) && AllAnswered(j', input, turns', fd, wfd)
    requires Going(j, input, turns) ==> |turns| == |input|
    requires turns' == [] || AllUnhindered(input, |turns'| - 1)
    ensures |turns| >= |turns'|
  {
    var n := |turns|;
    if 0 < n < |turns'| {
      TurnsAgree(j, j', input, turns, turns', n - 1, fd, wfd);
      AnswersAgree(j, j', input, turns, turns', n - 1, fd, wfd);
    }
  }

  lemma ConclusionsAgree(j: Journal, t: State, j': Journal, t': State, fd: Fd, wfd: Fd, input: seq<Recv>,
                         handled: nat, turns: seq<nat>, handled': nat, turns': seq<nat>)
    requires j.start == j'.start
    requires Concluded(j, t, fd, wfd, input, handled, turns) && Concluded(j', t', fd, wfd, input, handled', turns')
    ensures turns == turns' && handled == handled' && j.trace == j'.trace
    ensures j.cut == j'.cut && j.refused == j'.refused
    ensures j.complete == j'.complete && j.past == j'.past && j.sought == j'.sought
  {
    NotBehind(j, j', input, turns, turns', fd, wfd);
    NotBehind(j', j, input, turns', turns, fd, wfd);
    var n := |turns|;
    TurnsAgree(j, j', input, turns, turns', n, fd, wfd);
    assert turns == turns[..n] && turns' == turns'[..n];
    if n > 0 {
      AnswersAgree(j, j', input, turns, turns', n - 1, fd, wfd);
    }
  }

  /** The device, when the connection opens it, and the input settle how the connection goes: how far it
      gets, why it stops, each read of each echo, what the client is sent and what becomes of the device. */
  lemma ConnectionIsSettled(j: Journal, t: State, sent: Bytes, j': Journal, t': State, sent': Bytes, fd: Fd, wfd: Fd,
                            input: seq<Recv>, handled: nat, turns: seq<nat>, handled': nat, turns': seq<nat>)
    requires j.start == j'.start && Fits(j, t, sent, fd, wfd) && Fits(j', t', sent', fd, wfd)
    requires Concluded(j, t, fd, wfd, input, handled, turns) && Concluded(j', t', fd, wfd, input, handled', turns')
    ensures turns == turns' && handled == handled' && j == j' && t == t' && (!j.cut ==> sent == sent')
  {
    ConclusionsAgree(j, t, j', t', fd, wfd, input, handled, turns, handled', turns');
  }
}
