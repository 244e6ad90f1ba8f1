/** What every run of the device keeps, whatever the interleaving of the open files. */
module DeviceRuns {
  import opened ByteStreams
  import opened RingSpec
  import opened DeviceSpec

  // ---------------------------------------------------------------- the committed stream

  lemma LogSplit(log: seq<Bytes>)
    ensures Flat(log) == Flat(Evicted(log)) + Flat(Visible(log))
  {
    assert log == Evicted(log) + Visible(log);
    FlatConcat(Evicted(log), Visible(log));
  }

  lemma StreamSplit(s: State)
    ensures Stream(s) == Flat(Evicted(s.log)) + Contents(s)
    ensures |Stream(s)| == Base(s) + |Contents(s)|
  {
    LogSplit(s.log);
  }

  /** How many commands are no longer held. */
  function EvictedCount(s: State): nat {
    |Evicted(s.log)|
  }

  /** A step adds at most one command, and evicts only by that. */
  lemma StepGrows(s: State, op: Op)
    ensures s.log <= Step(s, op).0.log
    ensures EvictedCount(s) <= EvictedCount(Step(s, op).0)
    ensures Stream(s) <= Stream(Step(s, op).0)
    ensures Base(s) <= Base(Step(s, op).0)
  {
    var t := Step(s, op).0;
    FlatMonotone(s.log, t.log);
    assert Evicted(s.log) <= Evicted(t.log);
    FlatMonotone(Evicted(s.log), Evicted(t.log));
  }

  lemma {:induction false} RunGrows(s: State, ops: seq<Op>)
    ensures s.log <= Run(s, ops).log
    ensures EvictedCount(s) <= EvictedCount(Run(s, ops))
    ensures Stream(s) <= Stream(Run(s, ops))
    ensures Base(s) <= Base(Run(s, ops))
    decreases |ops|
  {
    if ops == [] {
    } else {
      var m := |ops| - 1;
      RunGrows(s, ops[..m]);
      StepGrows(Run(s, ops[..m]), ops[m]);
    }
  }

  lemma RunGrowsBetween(s: State, ops: seq<Op>, i: nat, j: nat)
    requires i <= j <= |ops|
    ensures Run(s, ops[..j]) == Run(Run(s, ops[..i]), ops[i..j])
    ensures Stream(Run(s, ops[..i])) <= Stream(Run(s, ops[..j]))
    ensures Base(Run(s, ops[..i])) <= Base(Run(s, ops[..j]))
  {
    assert ops[..j] == ops[..i] + ops[i..j];
    RunConcat(s, ops[..i], ops[i..j]);
    RunGrows(Run(s, ops[..i]), ops[i..j]);
  }

  // ---------------------------------------------------------------- one read

  lemma OutcomeAt(cmds: seq<Bytes>, pos: nat, count: nat, fault: Fault, j: nat, off: nat)
    requires Locate(Sizes(cmds), pos) == Some((j, off)) && At(Sizes(cmds), pos, j, off)
    ensures var out := ReadOutcome(cmds, pos, count, fault);
            && pos + |out.data| <= |Flat(cmds)|
            && out.data == Flat(cmds)[pos..pos + |out.data|]
  {
    var n := Min(count, |cmds[j]| - off);
    FlatSlice(cmds, j, off, off + n);
    FlatSlice(cmds, j, off, off);
    assert cmds[j][off..off] == [];
  }

  /** A read delivers the flat contents from its position on, at most to a command's end. */
  lemma OutcomeIsFlat(cmds: seq<Bytes>, pos: nat, count: nat, fault: Fault)
    ensures var out := ReadOutcome(cmds, pos, count, fault);
            && (out.ret >= 0 ==> out.ret == |out.data|)
            && (out.ret < 0 ==> out.data == [] && fault == CopyFault)
            && |out.data| <= count
            && (out.data != [] ==>
                  && pos + |out.data| <= |Flat(cmds)|
                  && out.data == Flat(cmds)[pos..pos + |out.data|])
            && (out.ret == 0 ==> count == 0 || pos >= |Flat(cmds)|)
  {
    FlatLength(cmds);
    LocateIsAt(Sizes(cmds), pos);
    var at := Locate(Sizes(cmds), pos);
    if at.Some? {
      OutcomeAt(cmds, pos, count, fault, at.value.0, at.value.1);
    }
  }

  /** The same of a step of the device, which moves the position by what it delivers. */
  lemma ReadIsFlat(s: State, fd: Fd, count: nat, fault: Fault)
    ensures var (t, out) := StepRead(s, fd, count, fault);
            && t == s.(fpos := t.fpos)
            && Pos(t, fd) == Pos(s, fd) + |out.data|
            && (out.ret >= 0 ==> out.ret == |out.data|)
            && |out.data| <= count
            && (out.data != [] ==>
                  && Pos(t, fd) <= |Contents(s)|
                  && out.data == Contents(s)[Pos(s, fd)..Pos(t, fd)])
            && (out.ret == 0 ==> count == 0 || Pos(s, fd) >= |Contents(s)|)
    ensures fault == NoFault ==>
              (StepRead(s, fd, count, fault).1.data != [] <==> count > 0 && Pos(s, fd) < |Contents(s)|)
  {
    OutcomeIsFlat(Visible(s.log), Pos(s, fd), count, fault);
  }

  lemma OutcomeFromStream(log: seq<Bytes>, pos: nat, count: nat, fault: Fault)
    ensures var data := ReadOutcome(Visible(log), pos, count, fault).data;
            var start := |Flat(Evicted(log))| + pos;
            data != [] ==> start + |data| <= |Flat(log)| && data == Flat(log)[start..start + |data|]
  {
    var cmds := Visible(log);
    OutcomeIsFlat(cmds, pos, count, fault);
    var data := ReadOutcome(cmds, pos, count, fault).data;
    if data != [] {
      LogSplit(log);
      SuffixSlice(Flat(Evicted(log)), Flat(cmds), pos, pos + |data|);
    }
  }

  /** Seen from the committed stream: contents position `p` is stream position `Base + p`. */
  lemma ReadIsFromStream(s: State, op: Op, fd: Fd)
    ensures var data := Delivered(s, op, fd);
            var start := Base(s) + Pos(s, fd);
            data != [] ==> start + |data| <= |Stream(s)| && data == Stream(s)[start..start + |data|]
  {
    if op.Read? {
      OutcomeFromStream(s.log, Pos(s, fd), op.count, op.fault);
    }
  }

  // ---------------------------------------------------------------- a reader among writers

  /** What one operation delivers to `fd`. */
  function Delivered(s: State, op: Op, fd: Fd): Bytes {
    if op.Read? && op.fd == fd then StepRead(s, fd, op.count, op.fault).1.data else []
  }

  /** Everything delivered to `fd` in a run. */
  function ReadBy(s: State, ops: seq<Op>, fd: Fd): Bytes {
    if ops == [] then []
    else
      var m := |ops| - 1;
      ReadBy(s, ops[..m], fd) + Delivered(Run(s, ops[..m]), ops[m], fd)
  }

  lemma ReadByAppend(s: State, ops: seq<Op>, op: Op, fd: Fd)
    ensures ReadBy(s, ops + [op], fd) == ReadBy(s, ops, fd) + Delivered(Run(s, ops), op, fd)
  {
    assert (ops + [op])[..|ops|] == ops;
  }

  lemma {:induction false} ReadByConcat(s: State, a: seq<Op>, b: seq<Op>, fd: Fd)
    ensures ReadBy(s, a + b, fd) == ReadBy(s, a, fd) + ReadBy(Run(s, a), b, fd)
    decreases |b|
  {
    if b == [] {
      assert a + b == a;
    } else {
      var m := |b| - 1;
      assert a + b == (a + b[..m]) + [b[m]];
      ReadByAppend(s, a + b[..m], b[m], fd);
      ReadByConcat(s, a, b[..m], fd);
      RunConcat(s, a, b[..m]);
      ConcatAssociates(ReadBy(s, a, fd), ReadBy(Run(s, a), b[..m], fd), Delivered(Run(s, a + b[..m]), b[m], fd));
    }
  }

  predicate OnlyReads(ops: seq<Op>, fd: Fd) {
    forall i :: 0 <= i < |ops| && ops[i].fd == fd ==> ops[i].Read?
  }

  /** No operation on another file moves this file's position. */
  lemma OtherFilesKeepPosition(s: State, op: Op, fd: Fd)
    requires op.fd != fd
    ensures Pos(Step(s, op).0, fd) == Pos(s, fd)
  {
  }

  lemma {:induction false} PositionCountsBytesRead(s: State, ops: seq<Op>, fd: Fd)
    requires OnlyReads(ops, fd)
    ensures Pos(Run(s, ops), fd) == Pos(s, fd) + |ReadBy(s, ops, fd)|
    decreases |ops|
  {
    if ops == [] {
    } else {
      var m := |ops| - 1;
      PositionCountsBytesRead(s, ops[..m], fd);
      var t := Run(s, ops[..m]);
      if ops[m].fd == fd {
        ReadIsFlat(t, fd, ops[m].count, ops[m].fault);
      } else {
        OtherFilesKeepPosition(t, ops[m], fd);
      }
    }
  }

  /** Stream position at which operation `i` of a run starts reading for `fd`. */
  function ReadStart(s: State, ops: seq<Op>, i: nat, fd: Fd): nat
    requires i <= |ops|
  {
    Base(Run(s, ops[..i])) + Pos(Run(s, ops[..i]), fd)
  }

  lemma StreamGrows(s: State, ops: seq<Op>, i: nat)
    requires i <= |ops|
    ensures Stream(Run(s, ops[..i])) <= Stream(Run(s, ops))
  {
    RunGrowsBetween(s, ops, i, |ops|);
    assert ops[..|ops|] == ops;
  }

  lemma DeliversLater(t: State, u: State, op: Op, fd: Fd)
    requires Stream(t) <= Stream(u)
    ensures var data := Delivered(t, op, fd);
            var start := Base(t) + Pos(t, fd);
            data != [] ==> start + |data| <= |Stream(u)| && data == Stream(u)[start..start + |data|]
  {
    ReadIsFromStream(t, op, fd);
    var data, start := Delivered(t, op, fd), Base(t) + Pos(t, fd);
    if data != [] {
      PrefixSlice(Stream(t), Stream(u), start, start + |data|);
    }
  }

  /** A read delivers the committed stream from `ReadStart` on, as it stands at any later time. */
  lemma ReadDeliversStream(s: State, ops: seq<Op>, i: nat, fd: Fd)
    requires i < |ops|
    ensures var data := Delivered(Run(s, ops[..i]), ops[i], fd);
            var start := ReadStart(s, ops, i, fd);
            data != [] ==>
              && start + |data| <= |Stream(Run(s, ops))|
              && data == Stream(Run(s, ops))[start..start + |data|]
  {
    StreamGrows(s, ops, i);
    DeliversLater(Run(s, ops[..i]), Run(s, ops), ops[i], fd);
  }

  /** For every interleaving with other files: a file that only reads never gets a byte twice
      or out of order, and what it misses between two reads is what was evicted between them. */
  lemma ReaderNeverRepeatsOrReorders(s: State, ops: seq<Op>, fd: Fd, i: nat, j: nat)
    requires i < j < |ops|
    requires ops[i].Read? && ops[i].fd == fd && OnlyReads(ops[i..j], fd)
    ensures var t, u := Run(s, ops[..i]), Run(s, ops[..j]);
            var between := ReadBy(t, ops[i..j], fd);
            && Delivered(t, ops[i], fd) <= between
            && ReadStart(s, ops, j, fd) == ReadStart(s, ops, i, fd) + |between| + (Base(u) - Base(t))
            && ReadStart(s, ops, i, fd) + |Delivered(t, ops[i], fd)| <= ReadStart(s, ops, j, fd)
  {
    var t := Run(s, ops[..i]);
    RunGrowsBetween(s, ops, i, j);
    PositionCountsBytesRead(t, ops[i..j], fd);
    ReadByStarts(t, ops[i..j], fd);
    assert ops[i..j][0] == ops[i];
  }

  lemma {:induction false} ReadByStarts(s: State, ops: seq<Op>, fd: Fd)
    requires ops != [] && ops[0].Read? && ops[0].fd == fd
    ensures Delivered(s, ops[0], fd) <= ReadBy(s, ops, fd)
    decreases |ops|
  {
    if |ops| == 1 {
      assert ops[..0] == [];
    } else {
      ReadByStarts(s, ops[..|ops| - 1], fd);
    }
  }

  lemma ReadStepJoinsOn(t: State, op: Op, fd: Fd, from: nat)
    requires op.Read? && from <= Pos(t, fd)
    ensures var u := Step(t, op).0;
            && u.log == t.log && u.pend == t.pend
            && Pos(u, fd) == Pos(t, fd) + |Delivered(t, op, fd)|
            && (Delivered(t, op, fd) != [] ==>
                  && Pos(u, fd) <= |Contents(t)|
                  && Contents(t)[from..Pos(u, fd)] == Contents(t)[from..Pos(t, fd)] + Delivered(t, op, fd))
  {
    ReadIsFlat(t, op.fd, op.count, op.fault);
    if op.fd != fd {
      OtherFilesKeepPosition(t, op, fd);
    }
  }

  /** While nothing is evicted, the contents only grow. */
  lemma ContentsGrow(s: State, t: State)
    requires s.log <= t.log && EvictedCount(s) == EvictedCount(t)
    ensures Contents(s) <= Contents(t)
  {
    FlatMonotone(Visible(s.log), Visible(t.log));
  }

  lemma OtherStepJoinsOn(t: State, op: Op, fd: Fd, from: nat)
    requires op.fd != fd && EvictedCount(t) == EvictedCount(Step(t, op).0)
    requires from <= Pos(t, fd) <= |Contents(t)|
    ensures var u := Step(t, op).0;
            && Pos(u, fd) == Pos(t, fd) <= |Contents(u)|
            && Contents(u)[from..Pos(u, fd)] == Contents(t)[from..Pos(t, fd)]
  {
    var u := Step(t, op).0;
    OtherFilesKeepPosition(t, op, fd);
    StepGrows(t, op);
    ContentsGrow(t, u);
    PrefixSlice(Contents(t), Contents(u), from, Pos(t, fd));
  }

  lemma ReadJoinsOn(t: State, op: Op, fd: Fd, from: nat)
    requires op.fd == fd ==> op.Read?
    requires EvictedCount(t) == EvictedCount(Step(t, op).0)
    requires from <= Pos(t, fd) <= |Contents(t)|
    ensures var u := Step(t, op).0;
            && Pos(t, fd) <= Pos(u, fd) <= |Contents(u)|
            && Contents(u)[from..Pos(u, fd)] == Contents(t)[from..Pos(t, fd)] + Delivered(t, op, fd)
  {
    if op.fd == fd {
      ReadStepJoinsOn(t, op, fd, from);
    } else {
      OtherStepJoinsOn(t, op, fd, from);
    }
    EmptyTail(Contents(t)[from..Pos(t, fd)]);
  }

  /** If a run evicts nothing, all that a file reads in it is one piece of the contents at its end,
      whoever writes in between and however many commands were evicted before. */
  lemma {:induction false} ReadsJoinUp(s: State, ops: seq<Op>, fd: Fd)
    requires OnlyReads(ops, fd)
    requires EvictedCount(Run(s, ops)) == EvictedCount(s)
    requires Pos(s, fd) <= |Contents(s)|
    ensures Pos(s, fd) <= Pos(Run(s, ops), fd) <= |Contents(Run(s, ops))|
    ensures ReadBy(s, ops, fd) == Contents(Run(s, ops))[Pos(s, fd)..Pos(Run(s, ops), fd)]
    decreases |ops|
  {
    if ops == [] {
    } else {
      var m := |ops| - 1;
      var t := Run(s, ops[..m]);
      RunGrows(s, ops[..m]);
      StepGrows(t, ops[m]);
      ReadsJoinUp(s, ops[..m], fd);
      ReadJoinsOn(t, ops[m], fd, Pos(s, fd));
    }
  }

  lemma ReadsToEnd(s: State, ops: seq<Op>, fd: Fd)
    requires OnlyReads(ops, fd) && EvictedCount(Run(s, ops)) == EvictedCount(s)
    requires Pos(s, fd) == 0 && Pos(Run(s, ops), fd) >= |Contents(Run(s, ops))|
    ensures ReadBy(s, ops, fd) == Contents(Run(s, ops))
  {
    ReadsJoinUp(s, ops, fd);
  }

  lemma ReadBySplit(s: State, ops: seq<Op>, n: nat, fd: Fd)
    requires n <= |ops|
    ensures Run(s, ops) == Run(Run(s, ops[..n]), ops[n..])
    ensures ReadBy(s, ops, fd) == ReadBy(s, ops[..n], fd) + ReadBy(Run(s, ops[..n]), ops[n..], fd)
  {
    assert ops[..n] + ops[n..] == ops;
    RunConcat(s, ops[..n], ops[n..]);
    ReadByConcat(s, ops[..n], ops[n..], fd);
  }

  lemma OnlyReadsSplit(ops: seq<Op>, n: nat, fd: Fd)
    requires n <= |ops| && OnlyReads(ops, fd)
    ensures OnlyReads(ops[..n], fd) && OnlyReads(ops[n..], fd)
  {
  }

  /** A file at position 0 that is given nothing by the first `n` operations and then, while nothing is
      evicted, reads to the end has been given exactly the contents. */
  lemma ReadsGiveContents(s: State, ops: seq<Op>, n: nat, fd: Fd)
    requires n <= |ops| && OnlyReads(ops, fd)
    requires Pos(s, fd) == 0 && ReadBy(s, ops[..n], fd) == []
    requires EvictedCount(Run(s, ops)) == EvictedCount(Run(s, ops[..n]))
    requires Pos(Run(s, ops), fd) >= |Contents(Run(s, ops))|
    ensures ReadBy(s, ops, fd) == Contents(Run(s, ops))
  {
    OnlyReadsSplit(ops, n, fd);
    ReadBySplit(s, ops, n, fd);
    PositionCountsBytesRead(s, ops[..n], fd);
    ReadsToEnd(Run(s, ops[..n]), ops[n..], fd);
    EmptyHead(ReadBy(Run(s, ops[..n]), ops[n..], fd));
  }

  /** Nothing but reads, by anyone. */
  predicate PureReads(ops: seq<Op>) {
    forall i :: 0 <= i < |ops| ==> ops[i].Read?
  }

  lemma {:induction false} PureReadsKeepState(s: State, ops: seq<Op>)
    requires PureReads(ops)
    ensures Run(s, ops).log == s.log && Run(s, ops).pend == s.pend
    decreases |ops|
  {
    if ops == [] {
    } else {
      var m := |ops| - 1;
      PureReadsKeepState(s, ops[..m]);
      ReadIsFlat(Run(s, ops[..m]), ops[m].fd, ops[m].count, ops[m].fault);
    }
  }

  /** The log of a run that ends with the log it began with is the same all along. */
  lemma LogIsSteady(s: State, ops: seq<Op>, m: nat)
    requires m <= |ops| && Run(s, ops).log == s.log
    ensures Run(s, ops[..m]).log == s.log
  {
    assert ops[..m] + ops[m..] == ops;
    RunConcat(s, ops[..m], ops[m..]);
    RunGrows(s, ops[..m]);
    RunGrows(Run(s, ops[..m]), ops[m..]);
  }

  lemma {:induction false} ReadsPastEnd(s: State, ops: seq<Op>, fd: Fd)
    requires OnlyReads(ops, fd) && Run(s, ops).log == s.log && Pos(s, fd) >= |Contents(s)|
    ensures ReadBy(s, ops, fd) == []
    decreases |ops|
  {
    if ops == [] {
    } else {
      var m := |ops| - 1;
      LogIsSteady(s, ops, m);
      ReadsPastEnd(s, ops[..m], fd);
      PositionCountsBytesRead(s, ops[..m], fd);
      if ops[m].fd == fd {
        ReadIsFlat(Run(s, ops[..m]), fd, ops[m].count, ops[m].fault);
      }
    }
  }

  /** While nobody writes, what a file reads is one piece of the contents, which do not change. */
  lemma PureReadsJoinUp(s: State, ops: seq<Op>, fd: Fd)
    requires PureReads(ops)
    ensures Run(s, ops).log == s.log && Run(s, ops).pend == s.pend
    ensures Pos(Run(s, ops), fd) == Pos(s, fd) + |ReadBy(s, ops, fd)|
    ensures ReadBy(s, ops, fd) != [] ==>
              && Pos(Run(s, ops), fd) <= |Contents(s)|
              && ReadBy(s, ops, fd) == Contents(s)[Pos(s, fd)..Pos(Run(s, ops), fd)]
  {
    PureReadsKeepState(s, ops);
    PositionCountsBytesRead(s, ops, fd);
    if Pos(s, fd) < |Contents(s)| {
      ReadsJoinUp(s, ops, fd);
    } else {
      ReadsPastEnd(s, ops, fd);
    }
  }

  /** Reading to the end while no command is completed delivers exactly the rest of the contents,
      whatever else the other files do. */
  lemma DrainIsExact(s: State, ops: seq<Op>, fd: Fd)
    requires OnlyReads(ops, fd) && Run(s, ops).log == s.log && Pos(Run(s, ops), fd) >= |Contents(s)|
    ensures Pos(s, fd) <= |Contents(s)| ==>
              && ReadBy(s, ops, fd) == Contents(s)[Pos(s, fd)..]
              && Pos(Run(s, ops), fd) == |Contents(s)|
    ensures Pos(s, fd) >= |Contents(s)| ==> ReadBy(s, ops, fd) == [] && Pos(Run(s, ops), fd) == Pos(s, fd)
    ensures PureReads(ops) ==> Run(s, ops).pend == s.pend
  {
    if PureReads(ops) {
      PureReadsKeepState(s, ops);
    }
    PositionCountsBytesRead(s, ops, fd);
    if Pos(s, fd) >= |Contents(s)| {
      ReadsPastEnd(s, ops, fd);
    } else {
      ReadsJoinUp(s, ops, fd);
      SliceToEnd(Contents(s), Pos(s, fd), Pos(Run(s, ops), fd));
    }
  }

  /** After such a drain the file has been given all the contents exactly when it began at their
      start, or there were none: a second drain on the same descriptor does not repeat them. */
  lemma DrainGivesAllIff(s: State, ops: seq<Op>, fd: Fd)
    requires OnlyReads(ops, fd) && Run(s, ops).log == s.log && Pos(Run(s, ops), fd) >= |Contents(s)|
    ensures ReadBy(s, ops, fd) == Contents(s) <==> Pos(s, fd) == 0 || Contents(s) == []
  {
    DrainIsExact(s, ops, fd);
  }

  /** Reading to the end while nothing is evicted delivers the contents as they are at the end, from
      the position on, whoever writes. */
  lemma DrainAmongWriters(s: State, ops: seq<Op>, fd: Fd)
    requires OnlyReads(ops, fd) && EvictedCount(Run(s, ops)) == EvictedCount(s)
    requires Pos(s, fd) <= |Contents(s)| && Pos(Run(s, ops), fd) >= |Contents(Run(s, ops))|
    ensures Pos(s, fd) <= |Contents(Run(s, ops))| == Pos(Run(s, ops), fd)
    ensures ReadBy(s, ops, fd) == Contents(Run(s, ops))[Pos(s, fd)..]
  {
    ReadsJoinUp(s, ops, fd);
    SliceToEnd(Contents(Run(s, ops)), Pos(s, fd), Pos(Run(s, ops), fd));
  }

  /** Operations on other files deliver nothing to this one and do not move it. */
  lemma {:induction false} OthersAreSilent(s: State, ops: seq<Op>, fd: Fd)
    requires forall i :: 0 <= i < |ops| ==> ops[i].fd != fd
    ensures ReadBy(s, ops, fd) == [] && OnlyReads(ops, fd)
    ensures Pos(Run(s, ops), fd) == Pos(s, fd)
    decreases |ops|
  {
    if ops == [] {
    } else {
      var m := |ops| - 1;
      OthersAreSilent(s, ops[..m], fd);
      OtherFilesKeepPosition(Run(s, ops[..m]), ops[m], fd);
    }
  }

  /** From `s` to `t` the bytes `added` were committed and `e` bytes were evicted. */
  ghost predicate MovedOn(s: State, t: State, added: Bytes, e: nat) {
    Stream(t) == Stream(s) + added && Base(t) == Base(s) + e
  }

  lemma ContentsMoveOn(s: State, t: State, added: Bytes, e: nat)
    requires MovedOn(s, t, added, e)
    ensures |Contents(t)| == |Contents(s)| + |added| - e
    ensures e <= |added| ==> Contents(t)[|Contents(s)|..] == added[e..]
  {
    StreamSplit(s);
    StreamSplit(t);
    if e <= |added| {
      SuffixSlice(Flat(Evicted(t.log)), Contents(t), |Contents(s)|, |Contents(t)|);
      SuffixSlice(Stream(s), added, e, |added|);
      SliceToEnd(Contents(t), |Contents(s)|, |Contents(t)|);
      SliceToEnd(added, e, |added|);
    }
  }

  /** A descriptor at the end of the contents is never rewound: of what others add before its next
      drain, during which no command is added, it is given all but as many bytes as were evicted, or
      nothing if more were. */
  lemma DrainSkipsEvicted(s: State, others: seq<Op>, drain: seq<Op>, fd: Fd, added: Bytes, e: nat)
    requires MovedOn(s, Run(s, others), added, e)
    requires Pos(s, fd) == |Contents(s)|
    requires forall i :: 0 <= i < |others| ==> others[i].fd != fd
    requires OnlyReads(drain, fd)
    requires var t, u := Run(s, others), Run(Run(s, others), drain); u.log == t.log && Pos(u, fd) >= |Contents(t)|
    ensures ReadBy(Run(s, others), drain, fd) == if e <= |added| then added[e..] else []
  {
    var t := Run(s, others);
    OthersAreSilent(s, others, fd);
    ContentsMoveOn(s, t, added, e);
    DrainIsExact(t, drain, fd);
  }

  /** What one more command adds to a full ring, and what it evicts. */
  lemma CommandEvicts(log: seq<Bytes>, c: Bytes)
    requires |log| >= CAPACITY
    ensures Flat(log + [c]) == Flat(log) + c
    ensures |Flat(Evicted(log + [c]))| == |Flat(Evicted(log))| + |Visible(log)[0]|
  {
    VisibleAppend(log, c);
    FlatAppend(log, c);
    FlatAppend(Evicted(log), Visible(log)[0]);
  }

  lemma PacketCommits(s: State, w: Fd, packet: Bytes)
    requires Pending(s) == [] && HasNewline(packet)
    ensures Run(s, [Write(w, packet, NoFault)]).log == s.log + [packet]
  {
    var op := Write(w, packet, NoFault);
    RunAppend(s, [], op);
    assert [] + [op] == [op];
    EmptyHead(packet);
  }

  lemma PacketEvicts(s: State, w: Fd, packet: Bytes)
    requires Pending(s) == [] && HasNewline(packet) && |s.log| >= CAPACITY
    ensures var t := Run(s, [Write(w, packet, NoFault)]);
            t.log == s.log + [packet] && MovedOn(s, t, packet, |Visible(s.log)[0]|)
  {
    PacketCommits(s, w, packet);
    CommandEvicts(s.log, packet);
  }

  /** So once the ring is full, a packet is echoed to such a descriptor without its first bytes, as many
      as the command it evicts has. */
  lemma DrainAfterPacket(s: State, w: Fd, packet: Bytes, drain: seq<Op>, fd: Fd)
    requires Pending(s) == [] && HasNewline(packet) && |s.log| >= CAPACITY
    requires w != fd && Pos(s, fd) == |Contents(s)| && OnlyReads(drain, fd)
    requires var t := Run(s, [Write(w, packet, NoFault)]);
             Run(t, drain).log == t.log && Pos(Run(t, drain), fd) >= |Contents(t)|
    ensures var e := |Visible(s.log)[0]|;
            ReadBy(Run(s, [Write(w, packet, NoFault)]), drain, fd) == if e <= |packet| then packet[e..] else []
  {
    PacketEvicts(s, w, packet);
    DrainSkipsEvicted(s, [Write(w, packet, NoFault)], drain, fd, packet, |Visible(s.log)[0]|);
  }

  // ---------------------------------------------------------------- framing

  /** Pending bytes hold no newline; every completed command holds one. */
  predicate Framed(s: State) {
    && !HasNewline(Pending(s))
    && forall k :: 0 <= k < |s.log| ==> HasNewline(s.log[k])
  }

  lemma StepKeepsFramed(s: State, op: Op)
    requires Framed(s)
    ensures Framed(Step(s, op).0)
  {
  }

  lemma {:induction false} RunKeepsFramed(s: State, ops: seq<Op>)
    requires Framed(s)
    ensures Framed(Run(s, ops))
    decreases |ops|
  {
    if ops == [] {
    } else {
      RunKeepsFramed(s, ops[..|ops| - 1]);
      StepKeepsFramed(Run(s, ops[..|ops| - 1]), ops[|ops| - 1]);
    }
  }

  /** Operation `op` from `t` is a write that joins newline-free bytes and a chunk with a newline to `e`. */
  predicate Completes(t: State, op: Op, e: Bytes) {
    && op.Write? && op.fault == NoFault
    && e == Pending(t) + op.chunk
    && HasNewline(op.chunk) && !HasNewline(Pending(t))
  }

  /** The command a step adds is newline-free bytes and then the chunk that step wrote. */
  lemma StepCompletes(t: State, op: Op)
    requires Framed(t) && |t.log| < |Step(t, op).0.log|
    ensures |Step(t, op).0.log| == |t.log| + 1
    ensures Completes(t, op, Step(t, op).0.log[|t.log|])
  {
  }

  /** Operation `i` of the run took the number of commands from `k` to `k + 1`, and completed `e`. */
  predicate CompletedAt(s: State, ops: seq<Op>, i: nat, k: nat, e: Bytes)
    requires i < |ops|
  {
    && |Run(s, ops[..i]).log| == k && |Run(s, ops[..i + 1]).log| == k + 1
    && Completes(Run(s, ops[..i]), ops[i], e)
  }

  /** One write of the run completed command `k`. */
  ghost predicate CompletedInRun(s: State, ops: seq<Op>, k: nat) {
    && k < |Run(s, ops).log|
    && exists i :: 0 <= i < |ops| && CompletedAt(s, ops, i, k, Run(s, ops).log[k])
  }

  lemma CompletedBefore(s: State, ops: seq<Op>, m: nat, k: nat)
    requires |ops| == m + 1 && CompletedInRun(s, ops[..m], k)
    ensures CompletedInRun(s, ops, k)
  {
    StepGrows(Run(s, ops[..m]), ops[m]);
    var e := Run(s, ops[..m]).log[k];
    assert e == Run(s, ops).log[k];
    var i :| 0 <= i < m && CompletedAt(s, ops[..m], i, k, e);
    assert ops[..m][..i] == ops[..i] && ops[..m][..i + 1] == ops[..i + 1];
    assert CompletedAt(s, ops, i, k, e);
  }

  lemma CompletedLast(s: State, ops: seq<Op>, m: nat, k: nat)
    requires |ops| == m + 1 && Framed(Run(s, ops[..m]))
    requires |Run(s, ops[..m]).log| <= k < |Run(s, ops).log|
    ensures CompletedInRun(s, ops, k)
  {
    StepCompletes(Run(s, ops[..m]), ops[m]);
    assert ops[..m + 1] == ops;
    assert CompletedAt(s, ops, m, k, Run(s, ops).log[k]);
  }

  /** Each command completed in a run was completed by one write of it, and all its newlines came with
      that write. */
  lemma {:induction false} NewlinesComeLast(s: State, ops: seq<Op>, k: nat)
    requires Framed(s) && |s.log| <= k < |Run(s, ops).log|
    ensures CompletedInRun(s, ops, k)
    decreases |ops|
  {
    if ops == [] {
    } else {
      var m := |ops| - 1;
      if k < |Run(s, ops[..m]).log| {
        NewlinesComeLast(s, ops[..m], k);
        CompletedBefore(s, ops, m, k);
      } else {
        RunKeepsFramed(s, ops[..m]);
        CompletedLast(s, ops, m, k);
      }
    }
  }

  // ---------------------------------------------------------------- conservation of bytes

  /** A ledger that knows nothing of commands or rings: the bytes accepted and still accounted for,
      and how many of them a newline has sealed. */
  datatype Ledger = Ledger(kept: Bytes, sealed: nat)

  function Enter(l: Ledger, op: Op): Ledger
    requires l.sealed <= |l.kept|
  {
    if !op.Write? || op.fault == LockInterrupted || op.fault == NoMemory then l
    else if op.fault == CopyFault && |op.chunk| > 0 then l.(kept := l.kept[..l.sealed])
    else
      var kept := l.kept + op.chunk;
      Ledger(kept, if HasNewline(op.chunk) then |kept| else l.sealed)
  }

  function Account(ops: seq<Op>): (l: Ledger)
    ensures l.sealed <= |l.kept|
  {
    if ops == [] then Ledger([], 0) else Enter(Account(ops[..|ops| - 1]), ops[|ops| - 1])
  }

  /** The device and the ledger agree. */
  ghost predicate Balanced(s: State, l: Ledger) {
    Stream(s) + Pending(s) == l.kept && |Stream(s)| == l.sealed
  }

  lemma StepKeepsBalance(s: State, l: Ledger, op: Op)
    requires Framed(s) && Balanced(s, l)
    ensures Balanced(Step(s, op).0, Enter(l, op))
  {
    if op.Write? && op.fault in {NoFault, CopyFault} {
      var all := Pending(s) + op.chunk;
      if op.fault == CopyFault && |op.chunk| > 0 {
        assert l.kept[..l.sealed] == Stream(s) + [];
      } else {
        assert Stream(s) + all == l.kept + op.chunk;
        FlatAppend(s.log, all);
        assert HasNewline(all) == HasNewline(op.chunk);
        assert Stream(s) + all + [] == Stream(s) + all;
      }
    }
  }

  /** Evicted bytes, held commands oldest first, and pending bytes are the accepted bytes in order;
      a copy fault loses exactly the pending ones, a failed allocation none. */
  lemma {:induction false} BytesAreConserved(ops: seq<Op>)
    ensures var s := Run(INITIAL, ops);
            && Flat(Evicted(s.log)) + Contents(s) + Pending(s) == Account(ops).kept
            && |Stream(s)| == Account(ops).sealed
    decreases |ops|
  {
    StreamSplit(Run(INITIAL, ops));
    if ops != [] {
      var m := |ops| - 1;
      var t := Run(INITIAL, ops[..m]);
      BytesAreConserved(ops[..m]);
      StreamSplit(t);
      RunKeepsFramed(INITIAL, ops[..m]);
      StepKeepsBalance(t, Account(ops[..m]), ops[m]);
    }
  }

  // ---------------------------------------------------------------- what a write returns

  /** A successful write returns, and moves the position by, the bytes it added to the stream of commands
      if it completed one, and otherwise the bytes it was given. */
  lemma WriteReturns(s: State, fd: Fd, chunk: Bytes, fault: Fault)
    requires StepWrite(s, fd, chunk, fault).1.ret >= 0
    ensures var (t, out) := StepWrite(s, fd, chunk, fault);
            && out.ret == (if |t.log| > |s.log| then |Stream(t)| - |Stream(s)| else |chunk|)
            && Pos(t, fd) == Pos(s, fd) + out.ret
    ensures Framed(s) ==> (|StepWrite(s, fd, chunk, fault).0.log| > |s.log| <==> HasNewline(chunk))
  {
    FlatAppend(s.log, Pending(s) + chunk);
  }

  /** A successful write returns more than it was given exactly when it completes a command
      some earlier write began. */
  lemma WriteOverReports(s: State, fd: Fd, chunk: Bytes, fault: Fault)
    requires Framed(s) && StepWrite(s, fd, chunk, fault).1.ret >= 0
    ensures StepWrite(s, fd, chunk, fault).1.ret > |chunk| <==> HasNewline(chunk) && Pending(s) != []
  {
  }

  /** What the reads and writes of one file have returned in a run, failures apart. */
  function Returned(s: State, ops: seq<Op>, fd: Fd): nat {
    if ops == [] then 0
    else
      var m := |ops| - 1;
      var ret := Result(s, ops, m).ret;
      Returned(s, ops[..m], fd) + if ops[m].fd == fd && ret > 0 then ret else 0
  }

  lemma StepAdvances(s: State, op: Op)
    requires op.Read? || op.Write?
    ensures var (t, out) := Step(s, op);
            Pos(t, op.fd) == Pos(s, op.fd) + if out.ret > 0 then out.ret else 0
  {
    match op
    case Write(fd, chunk, fault) =>
      if StepWrite(s, fd, chunk, fault).1.ret >= 0 {
        WriteReturns(s, fd, chunk, fault);
      }
    case Read(fd, count, fault) =>
      OutcomeIsFlat(Visible(s.log), Pos(s, fd), count, fault);
  }

  /** So the position of a file that is only read and written is what these calls have returned in all,
      whoever else does what. */
  lemma {:induction false} PositionCountsReturns(s: State, ops: seq<Op>, fd: Fd)
    requires forall i :: 0 <= i < |ops| && ops[i].fd == fd ==> ops[i].Read? || ops[i].Write?
    ensures Pos(Run(s, ops), fd) == Pos(s, fd) + Returned(s, ops, fd)
    decreases |ops|
  {
    if ops == [] {
    } else {
      var m := |ops| - 1;
      PositionCountsReturns(s, ops[..m], fd);
      if ops[m].fd == fd {
        StepAdvances(Run(s, ops[..m]), ops[m]);
      } else {
        OtherFilesKeepPosition(Run(s, ops[..m]), ops[m], fd);
      }
    }
  }

  /** Every write that goes through carries a newline. */
  predicate WholePackets(ops: seq<Op>) {
    forall i :: 0 <= i < |ops| && ops[i].Write? && ops[i].fault == NoFault ==> HasNewline(ops[i].chunk)
  }

  /** The chunks of the writes that went through. */
  function Accepted(ops: seq<Op>): seq<Bytes> {
    if ops == [] then []
    else
      var m := |ops| - 1;
      Accepted(ops[..m]) + (if ops[m].Write? && ops[m].fault == NoFault then [ops[m].chunk] else [])
  }

  lemma AcceptedLast(log: seq<Bytes>, ops: seq<Op>, m: nat)
    requires |ops| == m + 1
    ensures log + Accepted(ops) == (log + Accepted(ops[..m])) + Accepted([ops[m]])
  {
    assert [ops[m]][..0] == [];
    assert Accepted(ops) == Accepted(ops[..m]) + Accepted([ops[m]]);
  }

  lemma PacketStaysWhole(s: State, op: Op)
    requires op.Write? && op.fault == NoFault ==> HasNewline(op.chunk)
    requires Pending(s) == []
    ensures Pending(Step(s, op).0) == []
    ensures Step(s, op).0.log == s.log + Accepted([op])
    ensures op.Write? && op.fault == NoFault ==> Step(s, op).1.ret == |op.chunk|
  {
    assert [op][..0] == [];
    if op.Write? {
      assert Pending(s) + op.chunk == op.chunk;
    }
  }

  /** If every write carries a newline, each accepted write is one command, none is spliced with
      another, and the driver returns the length it was given. */
  lemma {:induction false} PacketsStayWhole(s: State, ops: seq<Op>)
    requires WholePackets(ops) && Pending(s) == []
    ensures Pending(Run(s, ops)) == []
    ensures Run(s, ops).log == s.log + Accepted(ops)
    decreases |ops|
  {
    if ops == [] {
    } else {
      var m := |ops| - 1;
      PacketsStayWhole(s, ops[..m]);
      PacketStaysWhole(Run(s, ops[..m]), ops[m]);
      AcceptedLast(s.log, ops, m);
    }
  }

  lemma PacketReturnsItsLength(s: State, ops: seq<Op>, i: nat)
    requires WholePackets(ops) && Pending(s) == []
    requires i < |ops| && ops[i].Write? && ops[i].fault == NoFault
    ensures Result(s, ops, i).ret == |ops[i].chunk|
  {
    PacketsStayWhole(s, ops[..i]);
    PacketStaysWhole(Run(s, ops[..i]), ops[i]);
  }

  // ---------------------------------------------------------------- the bounded device

  /** The same held commands at the same rotation, the same partial command, the same positions. */
  predicate SameDevice(s: State, t: State) {
    && Visible(s.log) == Visible(t.log) && OldestSlot(|s.log|) == OldestSlot(|t.log|)
    && s.pend == t.pend && s.fpos == t.fpos
  }

  lemma SameSlots(a: seq<Bytes>, b: seq<Bytes>)
    requires Visible(a) == Visible(b) && OldestSlot(|a|) == OldestSlot(|b|)
    ensures Slots(a, []) == Slots(b, [])
  {
    SlotsRotation(a, []);
    SlotsRotation(b, []);
    assert |a| < CAPACITY ==> a == Visible(a) == b;
  }

  lemma SameSeek(a: seq<Bytes>, b: seq<Bytes>, c: nat, o: nat)
    requires Visible(a) == Visible(b) && OldestSlot(|a|) == OldestSlot(|b|)
    ensures SeekOutcome(a, c, o) == SeekOutcome(b, c, o)
  {
    SameSlots(a, b);
    if c < CAPACITY {
      assert Sizes(Slots(a, [])) == Sizes(Slots(b, []));
    }
  }

  lemma SameAfterCommit(a: seq<Bytes>, b: seq<Bytes>, c: Bytes)
    requires Visible(a) == Visible(b) && OldestSlot(|a|) == OldestSlot(|b|)
    ensures Visible(a + [c]) == Visible(b + [c]) && OldestSlot(|a + [c]|) == OldestSlot(|b + [c]|)
  {
    VisibleAppend(a, c);
    VisibleAppend(b, c);
    OffsetsAdvance(|a|);
    OffsetsAdvance(|b|);
    assert |Visible(a)| == Count(|a|) && |Visible(b)| == Count(|b|);
  }

  lemma MoveKeepsSame(s: State, t: State, fd: Fd, p: nat)
    requires SameDevice(s, t)
    ensures SameDevice(Move(s, fd, p), Move(t, fd, p))
  {
  }

  lemma CommitKeepsSame(s: State, t: State, c: Bytes)
    requires SameDevice(s, t)
    ensures SameDevice(s.(log := s.log + [c], pend := None), t.(log := t.log + [c], pend := None))
  {
    SameAfterCommit(s.log, t.log, c);
  }

  lemma AcceptForgetsEvicted(s: State, t: State, fd: Fd, chunk: Bytes)
    requires SameDevice(s, t)
    ensures StepWrite(s, fd, chunk, NoFault).1 == StepWrite(t, fd, chunk, NoFault).1
    ensures SameDevice(StepWrite(s, fd, chunk, NoFault).0, StepWrite(t, fd, chunk, NoFault).0)
  {
    var all, p := Pending(s) + chunk, Pos(s, fd);
    if HasNewline(all) {
      CommitKeepsSame(s, t, all);
      var s', t' := s.(log := s.log + [all], pend := None), t.(log := t.log + [all], pend := None);
      MoveKeepsSame(s', t', fd, p + |all|);
      assert StepWrite(s, fd, chunk, NoFault).0 == Move(s', fd, p + |all|);
      assert StepWrite(t, fd, chunk, NoFault).0 == Move(t', fd, p + |all|);
    } else {
      MoveKeepsSame(s.(pend := Some(all)), t.(pend := Some(all)), fd, p + |chunk|);
    }
  }

  lemma WriteForgetsEvicted(s: State, t: State, fd: Fd, chunk: Bytes, fault: Fault)
    requires SameDevice(s, t)
    ensures StepWrite(s, fd, chunk, fault).1 == StepWrite(t, fd, chunk, fault).1
    ensures SameDevice(StepWrite(s, fd, chunk, fault).0, StepWrite(t, fd, chunk, fault).0)
  {
    if fault == NoFault || (fault == CopyFault && |chunk| == 0) {
      AcceptForgetsEvicted(s, t, fd, chunk);
      assert StepWrite(s, fd, chunk, fault) == StepWrite(s, fd, chunk, NoFault);
      assert StepWrite(t, fd, chunk, fault) == StepWrite(t, fd, chunk, NoFault);
    }
  }

  lemma StepReadIs(s: State, fd: Fd, count: nat, fault: Fault, cmds: seq<Bytes>, p: nat)
    requires fault != LockInterrupted && cmds == Visible(s.log) && p == Pos(s, fd)
    ensures var out := ReadOutcome(cmds, p, count, fault);
            && StepRead(s, fd, count, fault).0 == Move(s, fd, p + |out.data|)
            && StepRead(s, fd, count, fault).1 == out
  {
  }

  lemma ReadForgetsEvicted(s: State, t: State, fd: Fd, count: nat, fault: Fault)
    requires SameDevice(s, t)
    ensures StepRead(s, fd, count, fault).1 == StepRead(t, fd, count, fault).1
    ensures SameDevice(StepRead(s, fd, count, fault).0, StepRead(t, fd, count, fault).0)
  {
    if fault != LockInterrupted {
      var cmds, p := Visible(s.log), Pos(s, fd);
      StepReadIs(s, fd, count, fault, cmds, p);
      StepReadIs(t, fd, count, fault, cmds, p);
      MoveKeepsSame(s, t, fd, p + |ReadOutcome(cmds, p, count, fault).data|);
    }
  }

  lemma SeekForgetsEvicted(s: State, t: State, fd: Fd, cmd: nat, c: nat, o: nat, fault: Fault)
    requires SameDevice(s, t)
    ensures StepIoctl(s, fd, cmd, c, o, fault).1 == StepIoctl(t, fd, cmd, c, o, fault).1
    ensures SameDevice(StepIoctl(s, fd, cmd, c, o, fault).0, StepIoctl(t, fd, cmd, c, o, fault).0)
  {
    SameSeek(s.log, t.log, c, o);
    var target := SeekOutcome(s.log, c, o);
    if target.Some? {
      MoveKeepsSame(s, t, fd, target.value);
    }
  }

  lemma LlseekForgetsEvicted(s: State, t: State, fd: Fd, offset: int, whence: Whence, fault: Fault)
    requires SameDevice(s, t)
    ensures StepLlseek(s, fd, offset, whence, fault).1 == StepLlseek(t, fd, offset, whence, fault).1
    ensures SameDevice(StepLlseek(s, fd, offset, whence, fault).0, StepLlseek(t, fd, offset, whence, fault).0)
  {
    var r := FixedSizeLlseek(Pos(s, fd), offset, whence, |Contents(s)|);
    assert r == FixedSizeLlseek(Pos(t, fd), offset, whence, |Contents(t)|);
    if r >= 0 {
      MoveKeepsSame(s, t, fd, r);
    }
  }

  lemma StepForgetsEvicted(s: State, t: State, op: Op)
    requires SameDevice(s, t)
    ensures Step(s, op).1 == Step(t, op).1 && SameDevice(Step(s, op).0, Step(t, op).0)
  {
    match op
    case Open(_) =>
    case Write(fd, chunk, fault) => WriteForgetsEvicted(s, t, fd, chunk, fault);
    case Read(fd, count, fault) => ReadForgetsEvicted(s, t, fd, count, fault);
    case Ioctl(fd, cmd, c, o, fault) => SeekForgetsEvicted(s, t, fd, cmd, c, o, fault);
    case Llseek(fd, offset, whence, fault) => LlseekForgetsEvicted(s, t, fd, offset, whence, fault);
  }

  /** Nothing but the last ten commands, their rotation, the partial command and the positions
      matters: every run gives the same results from two states that agree on those. */
  lemma {:induction false} RunForgetsEvicted(s: State, t: State, ops: seq<Op>)
    requires SameDevice(s, t)
    ensures Results(s, ops) == Results(t, ops) && SameDevice(Run(s, ops), Run(t, ops))
    decreases |ops|
  {
    if ops == [] {
    } else {
      var m := |ops| - 1;
      RunForgetsEvicted(s, t, ops[..m]);
      StepForgetsEvicted(Run(s, ops[..m]), Run(t, ops[..m]), ops[m]);
    }
  }

  // ---------------------------------------------------------------- failures

  /** The position that llseek is asked for, if `whence` is one it knows. */
  function Asked(s: State, fd: Fd, offset: int, whence: Whence): int {
    if whence == SeekSet then offset
    else if whence == SeekCur then Pos(s, fd) + offset
    else |Contents(s)| + offset
  }

  /** Why an operation fails, or 0 if it does not. */
  function Errno(s: State, op: Op): int {
    if !op.Open? && op.fault == LockInterrupted && (op.Ioctl? ==> op.cmd == AESDCHAR_IOCSEEKTO) then ERESTARTSYS
    else
      match op
      case Open(_) => 0
      case Write(_, chunk, fault) =>
        if fault == NoMemory then ENOMEM else if fault == CopyFault && chunk != [] then EFAULT else 0
      case Read(fd, count, fault) =>
        if fault == CopyFault && count > 0 && Pos(s, fd) < |Contents(s)| then EFAULT else 0
      case Ioctl(_, cmd, c, o, fault) =>
        if cmd != AESDCHAR_IOCSEEKTO then ENOTTY
        else if fault == CopyFault then EFAULT
        else if SeekAccepted(s.log, c, o) then 0
        else EINVAL
      case Llseek(fd, offset, whence, _) =>
        if whence == SeekCur && offset == 0 then 0
        else if whence != SeekOther && 0 <= Asked(s, fd, offset, whence) <= |Contents(s)| then 0
        else EINVAL
  }

  /** An operation fails exactly for these reasons. One that fails delivers nothing and changes nothing, no
      position either, except that a write that meets a copy fault drops the partial command. */
  lemma FailuresAreExact(s: State, op: Op)
    ensures var (t, out) := Step(s, op);
            && (out.ret < 0 <==> Errno(s, op) > 0)
            && (out.ret < 0 ==>
                  && out == Outcome(-Errno(s, op), [])
                  && t == if op.Write? && op.fault == CopyFault then s.(pend := None) else s)
  {
    match op
    case Read(fd, count, fault) =>
      if fault != LockInterrupted {
        FlatLength(Visible(s.log));
        LocateIsAt(Sizes(Visible(s.log)), Pos(s, fd));
      }
    case _ =>
  }

  /** The operations of a run without those that failed and changed nothing. */
  function Effective(s: State, ops: seq<Op>): seq<Op> {
    if ops == [] then []
    else
      var m := |ops| - 1;
      var dropped := Result(s, ops, m).ret < 0 && !(ops[m].Write? && ops[m].fault == CopyFault);
      Effective(s, ops[..m]) + if dropped then [] else [ops[m]]
  }

  /** These can be left out of any run: every file is given the same bytes, and the device is the same
      at the end. */
  lemma {:induction false} FailuresLeaveNoTrace(s: State, ops: seq<Op>, fd: Fd)
    ensures Run(s, Effective(s, ops)) == Run(s, ops)
    ensures ReadBy(s, Effective(s, ops), fd) == ReadBy(s, ops, fd)
    decreases |ops|
  {
    if ops == [] {
    } else {
      var m := |ops| - 1;
      var before := Effective(s, ops[..m]);
      FailuresLeaveNoTrace(s, ops[..m], fd);
      FailuresAreExact(Run(s, ops[..m]), ops[m]);
      if Effective(s, ops) == before {
        EmptyTail(ReadBy(s, ops[..m], fd));
      } else {
        RunAppend(s, before, ops[m]);
        ReadByAppend(s, before, ops[m], fd);
      }
    }
  }

  // ---------------------------------------------------------------- seeking

  /** A seek of `fd` to `p` has this outcome: `p` and the file there, or an error and nothing changed if
      `p` is outside the contents. */
  ghost predicate Lands(s: State, fd: Fd, p: int, t: State, out: Outcome) {
    if 0 <= p <= |Contents(s)| then
      && out == Outcome(p, []) && Pos(t, fd) == p
      && t == s.(fpos := t.fpos) && forall f: Fd :: f != fd ==> Pos(t, f) == Pos(s, f)
    else
      t == s && out == Outcome(-EINVAL, [])
  }

  /** Where llseek goes: from the start, the position or the end of the contents. Asking for the current
      position succeeds wherever it is. */
  lemma LlseekLands(s: State, fd: Fd, p: int, fault: Fault)
    requires fault != LockInterrupted
    ensures var (t, out) := StepLlseek(s, fd, p, SeekSet, fault); Lands(s, fd, p, t, out)
    ensures var (t, out) := StepLlseek(s, fd, p, SeekCur, fault);
            if p == 0 then t == s && out == Outcome(Pos(s, fd), []) else Lands(s, fd, Pos(s, fd) + p, t, out)
    ensures var (t, out) := StepLlseek(s, fd, p, SeekEnd, fault); Lands(s, fd, |Contents(s)| + p, t, out)
    ensures StepLlseek(s, fd, p, SeekOther, fault) == (s, Outcome(-EINVAL, []))
  {
  }

  /** A read after a seek to `p` delivers the contents from there on. */
  lemma SeekSetThenRead(s: State, fd: Fd, p: int, count: nat)
    requires 0 <= p <= |Contents(s)|
    ensures var t := StepLlseek(s, fd, p, SeekSet, NoFault).0;
            var data := StepRead(t, fd, count, NoFault).1.data;
            && p + |data| <= |Contents(s)| && data == Contents(s)[p..p + |data|]
            && (data != [] <==> count > 0 && p < |Contents(s)|)
  {
    LlseekLands(s, fd, p, NoFault);
    ReadIsFlat(StepLlseek(s, fd, p, SeekSet, NoFault).0, fd, count, NoFault);
  }

  /** And reads to the end after it deliver all of them, from 0 the whole contents: what the descriptor
      of the socket server, which is never rewound, does not get. */
  lemma SeekSetThenDrain(s: State, fd: Fd, p: int, drain: seq<Op>)
    requires 0 <= p <= |Contents(s)| && OnlyReads(drain, fd)
    requires var t := StepLlseek(s, fd, p, SeekSet, NoFault).0;
             Run(t, drain).log == t.log && Pos(Run(t, drain), fd) >= |Contents(t)|
    ensures ReadBy(StepLlseek(s, fd, p, SeekSet, NoFault).0, drain, fd) == Contents(s)[p..]
  {
    LlseekLands(s, fd, p, NoFault);
    DrainIsExact(StepLlseek(s, fd, p, SeekSet, NoFault).0, drain, fd);
  }

  /** A seek that is accepted goes strictly inside the contents. */
  lemma SeekStaysInside(log: seq<Bytes>, c: nat, o: nat)
    requires SeekAccepted(log, c, o)
    ensures SeekTarget(log, c, o) < |Flat(Visible(log))|
  {
    RotationInvariance(log);
    SumSplit(Sizes(Slots(log, [])), c);
  }

  /** So the next read of the same file delivers at least one byte. */
  lemma SeekThenReadDelivers(s: State, fd: Fd, c: nat, o: nat, count: nat)
    requires SeekAccepted(s.log, c, o) && count > 0
    ensures var (t, out) := StepIoctl(s, fd, AESDCHAR_IOCSEEKTO, c, o, NoFault);
            out.ret == 0 && StepRead(t, fd, count, NoFault).1.ret > 0
  {
    SeekStaysInside(s.log, c, o);
    ReadIsFlat(StepIoctl(s, fd, AESDCHAR_IOCSEEKTO, c, o, NoFault).0, fd, count, NoFault);
  }

  lemma ReadAtEndIsEmpty(s: State, fd: Fd, count: nat, fault: Fault)
    requires Pos(s, fd) >= |Contents(s)|
    ensures StepRead(s, fd, count, fault).1.data == []
    ensures fault != LockInterrupted ==> StepRead(s, fd, count, fault).1.ret == 0
  {
    FlatLength(Visible(s.log));
    LocateIsAt(Sizes(Visible(s.log)), Pos(s, fd));
  }

  lemma SeekEndThenReadIsEmpty(s: State, fd: Fd, count: nat, fault: Fault)
    ensures var (t, out) := StepLlseek(s, fd, 0, SeekEnd, NoFault);
            && out.ret == |Contents(s)|
            && StepRead(t, fd, count, fault).1.data == []
            && (fault != LockInterrupted ==> StepRead(t, fd, count, fault).1.ret == 0)
  {
    var t := Move(s, fd, |Contents(s)|);
    assert StepLlseek(s, fd, 0, SeekEnd, NoFault) == (t, Outcome(|Contents(s)|, []));
    assert Pos(t, fd) == |Contents(s)| == |Contents(t)| by {
      assert t.log == s.log;
    }
    ReadAtEndIsEmpty(t, fd, count, fault);
  }

  /** What aesd_ioctl.h promises of one seek: it is accepted exactly when the `c`-th oldest command is
      held and has a byte `o`, and then it goes to that byte. */
  predicate SeekAsDocumented(log: seq<Bytes>, c: nat, o: nat) {
    && (SeekAccepted(log, c, o) <==> c < |Visible(log)| && o < |Visible(log)[c]|)
    && (SeekAccepted(log, c, o) ==> At(Sizes(Visible(log)), SeekTarget(log, c, o), c, o))
  }

  ghost predicate SeekIsFaithful(log: seq<Bytes>) {
    forall c, o :: SeekAsDocumented(log, c, o)
  }

  /** Lists with the same prefix sums are the same. */
  lemma PrefixSumsDetermine(a: seq<nat>, b: seq<nat>)
    requires |a| == |b|
    requires forall c :: 0 <= c <= |a| ==> Sum(a[..c]) == Sum(b[..c])
    ensures a == b
  {
    forall c | 0 <= c < |a|
      ensures a[c] == b[c]
    {
      SumPrefixGrows(a, c);
      SumPrefixGrows(b, c);
      assert Sum(a[..c + 1]) == Sum(b[..c + 1]);
    }
  }

  lemma SameSizesFind(log: seq<Bytes>, c: nat, o: nat)
    requires |log| < CAPACITY || Sizes(Slots(log, [])) == Sizes(Visible(log))
    ensures SeekAsDocumented(log, c, o)
  {
    if c < CAPACITY {
      SizesRotation(log);
      var raw, live := Sizes(Slots(log, [])), Sizes(Visible(log));
      assert raw[c] == |Slots(log, [])[c]|;
      assert c < |live| ==> live[c] == raw[c] && raw[..c] == live[..c];
    }
  }

  lemma PrefixesAgree(s: State, c: nat)
    requires Framed(s) && |s.log| >= CAPACITY && c < CAPACITY && SeekIsFaithful(s.log)
    ensures Sum(Sizes(Slots(s.log, []))[..c]) == Sum(Sizes(Visible(s.log))[..c])
  {
    SlotIsVisible(s.log, [], c);
    assert SeekAccepted(s.log, c, 0);
    assert SeekAsDocumented(s.log, c, 0);
  }

  lemma FaithfulMeansSameSizes(s: State)
    requires Framed(s) && |s.log| >= CAPACITY && SeekIsFaithful(s.log)
    ensures Sizes(Slots(s.log, [])) == Sizes(Visible(s.log))
  {
    var raw, live := Sizes(Slots(s.log, [])), Sizes(Visible(s.log));
    forall c | 0 <= c <= CAPACITY
      ensures Sum(raw[..c]) == Sum(live[..c])
    {
      if c < CAPACITY {
        PrefixesAgree(s, c);
      } else {
        RotationInvariance(s.log);
        FlatLength(Visible(s.log));
        assert raw[..c] == raw && live[..c] == live;
      }
    }
    PrefixSumsDetermine(raw, live);
  }

  /** The list begun at element `cut` and wrapped round is the same list. */
  predicate SameRotated(sizes: seq<nat>, cut: nat)
    requires cut <= |sizes|
  {
    sizes[cut..] + sizes[..cut] == sizes
  }

  /** The promise holds of all seeks exactly when fewer than ten commands were completed, or when the
      sizes of the held commands are the same list begun at the one in slot 0. */
  lemma SeekIsFaithfulIff(s: State)
    requires Framed(s)
    ensures SeekIsFaithful(s.log) <==>
              || |s.log| < CAPACITY
              || SameRotated(Sizes(Visible(s.log)), CAPACITY - |s.log| % CAPACITY)
  {
    SizesRotation(s.log);
    if |s.log| < CAPACITY || Sizes(Slots(s.log, [])) == Sizes(Visible(s.log)) {
      forall c, o
        ensures SeekAsDocumented(s.log, c, o)
      {
        SameSizesFind(s.log, c, o);
      }
    } else if SeekIsFaithful(s.log) {
      FaithfulMeansSameSizes(s);
    }
  }

  lemma SlotZeroIsOldest(log: seq<Bytes>, c: nat, o: nat)
    requires OldestSlot(|log|) == 0
    ensures SeekAsDocumented(log, c, o)
  {
    SizesRotation(log);
    if |log| >= CAPACITY {
      var live := Sizes(Visible(log));
      assert live[CAPACITY..] + live[..CAPACITY] == live;
    }
    SameSizesFind(log, c, o);
  }

  lemma ReadAt(s: State, fd: Fd, count: nat, j: nat, off: nat)
    requires At(Sizes(Visible(s.log)), Pos(s, fd), j, off)
    ensures var cmd := Visible(s.log)[j];
            StepRead(s, fd, count, NoFault).1.data == cmd[off..off + Min(count, |cmd| - off)]
  {
    AtIsLocate(Sizes(Visible(s.log)), Pos(s, fd), j, off);
  }

  /** While the oldest command is in slot 0, a seek and a read give the command asked for. */
  lemma SeekThenRead(s: State, fd: Fd, c: nat, o: nat, count: nat)
    requires OldestSlot(|s.log|) == 0 && SeekAccepted(s.log, c, o)
    ensures |s.log| <= CAPACITY || |s.log| % CAPACITY == 0
    ensures c < |Visible(s.log)| && o < |Visible(s.log)[c]|
    ensures var t := StepIoctl(s, fd, AESDCHAR_IOCSEEKTO, c, o, NoFault).0;
            var cmd := Visible(s.log)[c];
            StepRead(t, fd, count, NoFault).1.data == cmd[o..o + Min(count, |cmd| - o)]
  {
    SlotZeroIsOldest(s.log, c, o);
    var t := Move(s, fd, SeekTarget(s.log, c, o));
    ReadAt(t, fd, count, c, o);
    assert StepIoctl(s, fd, AESDCHAR_IOCSEEKTO, c, o, NoFault).0 == t;
  }

  /** At any other rotation a seek counts from the command in slot 0, which lies `cut` from the oldest. */
  lemma SeekTargetRotated(log: seq<Bytes>, c: nat, o: nat)
    requires |log| >= CAPACITY && c < CAPACITY
    ensures var cut := CAPACITY - |log| % CAPACITY;
            var live := Sizes(Visible(log));
            SeekTarget(log, c, o) == o +
              if c <= CAPACITY - cut then Sum(live[cut..cut + c])
              else Sum(live[cut..]) + Sum(live[..c - (CAPACITY - cut)])
  {
    SizesRotation(log);
    var cut := CAPACITY - |log| % CAPACITY;
    var raw, live := Sizes(Slots(log, [])), Sizes(Visible(log));
    if c <= CAPACITY - cut {
      assert raw[..c] == live[cut..cut + c];
    } else {
      assert raw[..c] == live[cut..] + live[..c - (CAPACITY - cut)];
      SumConcat(live[cut..], live[..c - (CAPACITY - cut)]);
    }
  }

  // ---------------------------------------------------------------- runs that fall short

  /** One write of each packet, through `fd`. */
  function PacketWrites(packets: seq<Bytes>, fd: Fd): seq<Op> {
    seq(|packets|, i requires 0 <= i < |packets| => Write(fd, packets[i], NoFault))
  }

  lemma {:induction false} PacketWritesAccepted(packets: seq<Bytes>, fd: Fd)
    ensures Accepted(PacketWrites(packets, fd)) == packets
    decreases |packets|
  {
    if packets == [] {
    } else {
      var m := |packets| - 1;
      PacketWritesAccepted(packets[..m], fd);
      assert PacketWrites(packets, fd)[..m] == PacketWrites(packets[..m], fd);
    }
  }

  /** The device after a run of packets. */
  lemma PacketRun(packets: seq<Bytes>, fd: Fd)
    requires forall i :: 0 <= i < |packets| ==> HasNewline(packets[i])
    ensures var s := Run(INITIAL, PacketWrites(packets, fd));
            s.log == packets && Pending(s) == []
  {
    var ops := PacketWrites(packets, fd);
    assert forall i :: 0 <= i < |ops| ==> ops[i].chunk == packets[i];
    PacketsStayWhole(INITIAL, ops);
    PacketWritesAccepted(packets, fd);
  }

  lemma PacketsLeavePosition(packets: seq<Bytes>, w: Fd, fd: Fd)
    requires fd != w
    ensures Pos(Run(INITIAL, PacketWrites(packets, w)), fd) == 0
  {
    var ops := PacketWrites(packets, w);
    assert forall i :: 0 <= i < |ops| ==> ops[i].fd == w;
    OthersAreSilent(INITIAL, ops, fd);
  }

  /** After eleven commands slot 0 holds the newest. */
  lemma EleventhIsInSlotZero(log: seq<Bytes>)
    requires |log| == CAPACITY + 1
    ensures Slots(log, [])[0] == log[CAPACITY]
    ensures SeekTarget(log, 1, 0) == |log[CAPACITY]|
    ensures Sum(Sizes(Visible(log))[..1]) == |log[1]|
  {
    SlotsRotated(log, []);
    var raw, live := Sizes(Slots(log, [])), Sizes(Visible(log));
    assert Slots(log, [])[0] == log[CAPACITY];
    assert raw[..1][0] == |log[CAPACITY]| && live[..1][0] == |log[1]|;
    assert raw[..1][..0] == [] && live[..1][..0] == [];
    assert Sum(raw[..1]) == |log[CAPACITY]|;
  }

  /** Ten commands of one byte, then one of four: it lands in slot 0, and a seek to the second oldest
      command misses it by three bytes. */
  lemma SeekCanMiss(fd: Fd)
    ensures var log := Run(INITIAL, PacketWrites(seq(10, _ => "\n") + ["abc\n"], fd)).log;
            && SeekAccepted(log, 1, 0) && SeekTarget(log, 1, 0) == 4
            && At(Sizes(Visible(log)), 1, 1, 0)
            && !SeekAsDocumented(log, 1, 0)
  {
    var log := seq(10, _ => "\n") + ["abc\n"];
    PacketRun(log, fd);
    EleventhIsInSlotZero(log);
    SlotsRotated(log, []);
    assert Slots(log, [])[1] == "\n" == Visible(log)[1];
  }

  /** With the long command second of eleven, it is the oldest held, and a seek into it is refused. */
  lemma SeekCanRefuse(fd: Fd)
    ensures var log := Run(INITIAL, PacketWrites(["\n", "abc\n"] + seq(9, _ => "\n"), fd)).log;
            && Visible(log) == ["abc\n"] + seq(9, _ => "\n")
            && !SeekAccepted(log, 0, 2)
            && !SeekAsDocumented(log, 0, 2)
  {
    var log := ["\n", "abc\n"] + seq(9, _ => "\n");
    PacketRun(log, fd);
    EleventhIsInSlotZero(log);
  }

  /** One byte begins a command; a newline completes it, and that write of one byte returns 2. */
  lemma WriteCanOverReport(fd: Fd)
    ensures Result(INITIAL, [Write(fd, "a", NoFault), Write(fd, "\n", NoFault)], 1).ret == 2
  {
    var ops := [Write(fd, "a", NoFault), Write(fd, "\n", NoFault)];
    assert ops[..1] == [] + [ops[0]];
    RunAppend(INITIAL, [], ops[0]);
    assert Pending(Run(INITIAL, ops[..1])) == "a";
    assert HasNewline("a" + "\n") by { assert ("a" + "\n")[1] == '\n'; }
  }

  function Reads(fd: Fd, count: nat, k: nat): (ops: seq<Op>)
    ensures PureReads(ops) && OnlyReads(ops, fd)
  {
    if k == 0 then [] else Reads(fd, count, k - 1) + [Read(fd, count, NoFault)]
  }

  lemma ReadsWholeCommand(t: State, fd: Fd, count: nat, j: nat)
    requires j < |Visible(t.log)| && 0 < |Visible(t.log)[j]| <= count
    requires Pos(t, fd) == Sum(Sizes(Visible(t.log))[..j])
    ensures Pos(StepRead(t, fd, count, NoFault).0, fd) == Sum(Sizes(Visible(t.log))[..j + 1])
  {
    ReadAt(t, fd, count, j, 0);
    SumPrefixGrows(Sizes(Visible(t.log)), j);
  }

  lemma ReadsOneMore(s: State, before: seq<Op>, fd: Fd, count: nat, j: nat)
    requires PureReads(before) && j < |Visible(s.log)| && 0 < |Visible(s.log)[j]| <= count
    requires Pos(Run(s, before), fd) == Sum(Sizes(Visible(s.log))[..j])
    ensures Pos(Run(s, before + [Read(fd, count, NoFault)]), fd) == Sum(Sizes(Visible(s.log))[..j + 1])
  {
    PureReadsKeepState(s, before);
    ReadsWholeCommand(Run(s, before), fd, count, j);
    RunAppend(s, before, Read(fd, count, NoFault));
  }

  /** Reads of `count` bytes that begin at the start give one command each, if none is longer. */
  lemma {:induction false} ReadsOneEach(s: State, fd: Fd, count: nat, k: nat)
    requires Pos(s, fd) == 0 && k <= |Visible(s.log)|
    requires forall j :: 0 <= j < |Visible(s.log)| ==> 0 < |Visible(s.log)[j]| <= count
    ensures Pos(Run(s, Reads(fd, count, k)), fd) == Sum(Sizes(Visible(s.log))[..k])
    decreases k
  {
    if k == 0 {
    } else {
      ReadsOneEach(s, fd, count, k - 1);
      ReadsOneMore(s, Reads(fd, count, k - 1), fd, count, k - 1);
    }
  }

  lemma ReadsReachEnd(s: State, fd: Fd, count: nat)
    requires Pos(s, fd) == 0
    requires forall j :: 0 <= j < |Visible(s.log)| ==> 0 < |Visible(s.log)[j]| <= count
    ensures var ops := Reads(fd, count, |Visible(s.log)|);
            && Pos(Run(s, ops), fd) == |Contents(s)|
            && ReadBy(s, ops, fd) == Contents(s)
            && Run(s, ops).log == s.log && Run(s, ops).pend == s.pend
  {
    var n := |Visible(s.log)|;
    ReadsOneEach(s, fd, count, n);
    FlatLength(Visible(s.log));
    SumPrefixAll(Sizes(Visible(s.log)), n);
    PureReadsKeepState(s, Reads(fd, count, n));
    DrainIsExact(s, Reads(fd, count, n), fd);
  }

  /** Reads give everything once, and the same reads again give nothing. */
  lemma SecondDrainIsEmpty(s: State, fd: Fd, count: nat, again: nat)
    requires Pos(s, fd) == 0
    requires forall j :: 0 <= j < |Visible(s.log)| ==> 0 < |Visible(s.log)[j]| <= count
    ensures var ops := Reads(fd, count, |Visible(s.log)|);
            && ReadBy(s, ops, fd) == Contents(s) == Contents(Run(s, ops))
            && ReadBy(Run(s, ops), Reads(fd, count, again), fd) == []
  {
    ReadsReachEnd(s, fd, count);
    var t := Run(s, Reads(fd, count, |Visible(s.log)|));
    PositionCountsBytesRead(t, Reads(fd, count, again), fd);
    PureReadsKeepState(t, Reads(fd, count, again));
    DrainIsExact(t, Reads(fd, count, again), fd);
  }

  lemma OnePacketHeld(packet: Bytes, fd: Fd, w: Fd)
    requires fd != w && HasNewline(packet)
    ensures var s := Run(INITIAL, PacketWrites([packet], w));
            Visible(s.log) == [packet] && Contents(s) == packet && Pos(s, fd) == 0
  {
    PacketRun([packet], w);
    PacketsLeavePosition([packet], w, fd);
    AllVisible([packet]);
    FlatOne(packet);
  }

  lemma OnePacketIsReadOnce(packet: Bytes, fd: Fd, w: Fd)
    requires fd != w && HasNewline(packet) && |packet| <= 1024
    ensures var s := Run(INITIAL, PacketWrites([packet], w));
            && ReadBy(s, Reads(fd, 1024, 1), fd) == Contents(s) == packet
            && ReadBy(Run(s, Reads(fd, 1024, 1)), Reads(fd, 1024, 1), fd) == []
  {
    OnePacketHeld(packet, fd, w);
    SecondDrainIsEmpty(Run(INITIAL, PacketWrites([packet], w)), fd, 1024, 1);
  }

  /** One packet: the first read gives it, a second one does not repeat it. */
  lemma SecondDrainCanBeEmpty(fd: Fd, w: Fd)
    requires fd != w
    ensures var s := Run(INITIAL, PacketWrites(["a\n"], w));
            && ReadBy(s, Reads(fd, 1024, 1), fd) == Contents(s) == "a\n"
            && ReadBy(Run(s, Reads(fd, 1024, 1)), Reads(fd, 1024, 1), fd) == []
  {
    assert HasNewline("a\n") by { assert "a\n"[1] == '\n'; }
    OnePacketIsReadOnce("a\n", fd, w);
  }

  /** A run of packets, read to the end by another file. */
  lemma PacketsReadToEnd(packets: seq<Bytes>, fd: Fd, w: Fd)
    requires fd != w && |packets| == CAPACITY
    requires forall i :: 0 <= i < |packets| ==> HasNewline(packets[i]) && |packets[i]| <= 1024
    ensures var s := Run(Run(INITIAL, PacketWrites(packets, w)), Reads(fd, 1024, CAPACITY));
            s.log == packets && Pending(s) == [] && Pos(s, fd) == |Contents(s)|
  {
    var s := Run(INITIAL, PacketWrites(packets, w));
    PacketRun(packets, w);
    PacketsLeavePosition(packets, w, fd);
    AllVisible(packets);
    assert forall i :: 0 <= i < |packets| ==> 0 < |packets[i]|;
    ReadsReachEnd(s, fd, 1024);
  }

  lemma ShortPacketIsSkipped(s: State, packet: Bytes, fd: Fd, w: Fd)
    requires Pending(s) == [] && HasNewline(packet) && |s.log| >= CAPACITY
    requires w != fd && Pos(s, fd) == |Contents(s)| && |packet| < |Visible(s.log)[0]|
    ensures var t := Run(s, [Write(w, packet, NoFault)]);
            t.log == s.log + [packet] && ReadBy(t, Reads(fd, 1024, 1), fd) == []
  {
    var next := [Write(w, packet, NoFault)];
    PacketEvicts(s, w, packet);
    ContentsMoveOn(s, Run(s, next), packet, |Visible(s.log)[0]|);
    OthersAreSilent(s, next, fd);
    PositionCountsBytesRead(Run(s, next), Reads(fd, 1024, 1), fd);
    PureReadsKeepState(Run(s, next), Reads(fd, 1024, 1));
    DrainAfterPacket(s, w, packet, Reads(fd, 1024, 1), fd);
  }

  /** Ten packets of four bytes are read to the end; the eleventh has two bytes and evicts four, so the
      reader is given none of it. */
  lemma EleventhPacketCanBeSkipped(fd: Fd, w: Fd)
    requires fd != w
    ensures var s := Run(Run(INITIAL, PacketWrites(seq(10, _ => "abc\n"), w)), Reads(fd, 1024, 10));
            var t := Run(s, [Write(w, "x\n", NoFault)]);
            && t.log == seq(10, _ => "abc\n") + ["x\n"]
            && ReadBy(t, Reads(fd, 1024, 1), fd) == []
  {
    var packets := seq(10, _ => "abc\n");
    var s := Run(Run(INITIAL, PacketWrites(packets, w)), Reads(fd, 1024, 10));
    PacketsReadToEnd(packets, fd, w);
    assert Visible(s.log)[0] == "abc\n";
    ShortPacketIsSkipped(s, "x\n", fd, w);
  }
}
