/** What the character device does, as a state machine over whole operations.
    Every operation runs under the device lock, so a run is a list of operations. */
module DeviceSpec {
  import opened ByteStreams
  import opened RingSpec

  const ERESTARTSYS := 512
  const EFAULT := 14
  const ENOMEM := 12
  const EINVAL := 22
  const ENOTTY := 25

  // _IOWR(AESD_IOC_MAGIC, 1, struct aesd_seekto)
  const AESD_IOC_MAGIC := 0x16
  const AESDCHAR_IOC_MAXNR := 1
  const AESDCHAR_IOCSEEKTO := 0xC008_1601

  /** The first thing that goes wrong around one operation. */
  datatype Fault = NoFault | LockInterrupted | NoMemory | CopyFault

  datatype Whence = SeekSet | SeekCur | SeekEnd | SeekOther

  type Fd = nat

  datatype Op =
    | Open(fd: Fd)
    | Write(fd: Fd, chunk: Bytes, fault: Fault)
    | Read(fd: Fd, count: nat, fault: Fault)
    | Ioctl(fd: Fd, cmd: nat, writeCmd: nat, cmdOffset: nat, fault: Fault)
    | Llseek(fd: Fd, offset: int, whence: Whence, fault: Fault)

  /** `log`: every completed command. `pend`: the partial command being gathered.
      `fpos`: the file position of each open file. */
  datatype State = State(log: seq<Bytes>, pend: Option<Bytes>, fpos: map<Fd, nat>)

  const INITIAL := State([], None, map[])

  datatype Outcome = Outcome(ret: int, data: Bytes)

  function Pos(s: State, fd: Fd): nat {
    if fd in s.fpos then s.fpos[fd] else 0
  }

  function Pending(s: State): Bytes {
    if s.pend.None? then [] else s.pend.value
  }

  /** What a reader at position 0 can see: the held commands, oldest first. */
  function Contents(s: State): Bytes {
    Flat(Visible(s.log))
  }

  /** Every byte ever committed, and how many of them have been evicted. */
  function Stream(s: State): Bytes {
    Flat(s.log)
  }

  function Base(s: State): nat {
    |Flat(Evicted(s.log))|
  }

  function Min(a: nat, b: nat): nat {
    if a < b then a else b
  }

  function Fail(s: State, errno: int): (State, Outcome) {
    (s, Outcome(-errno, []))
  }

  /** `f_pos` of one file set to `p`. */
  function Move(s: State, fd: Fd, p: nat): State {
    if Pos(s, fd) == p then s else s.(fpos := s.fpos[fd := p])
  }

  function StepWrite(s: State, fd: Fd, chunk: Bytes, fault: Fault): (State, Outcome) {
    if fault == LockInterrupted then Fail(s, ERESTARTSYS)
    else if fault == NoMemory then Fail(s, ENOMEM)
    else if fault == CopyFault && |chunk| > 0 then Fail(s.(pend := None), EFAULT)
    else
      var all := Pending(s) + chunk;
      if HasNewline(all) then
        (Move(s.(log := s.log + [all], pend := None), fd, Pos(s, fd) + |all|), Outcome(|all|, []))
      else
        (Move(s.(pend := Some(all)), fd, Pos(s, fd) + |chunk|), Outcome(|chunk|, []))
  }

  /** A read at `pos` of commands joined end to end; it stops at the end of a command. */
  function ReadOutcome(cmds: seq<Bytes>, pos: nat, count: nat, fault: Fault): Outcome {
    match Locate(Sizes(cmds), pos)
    case None => Outcome(0, [])
    case Some((j, off)) =>
      var n := Min(count, |cmds[j]| - off);
      if fault == CopyFault && n > 0 then Outcome(-EFAULT, [])
      else Outcome(n, cmds[j][off..off + n])
  }

  function StepRead(s: State, fd: Fd, count: nat, fault: Fault): (State, Outcome) {
    if fault == LockInterrupted then Fail(s, ERESTARTSYS)
    else
      var out := ReadOutcome(Visible(s.log), Pos(s, fd), count, fault);
      (Move(s, fd, Pos(s, fd) + |out.data|), out)
  }

  /** Where a seek to offset `o` of write command `c` goes: raw slot order. */
  function SeekTarget(log: seq<Bytes>, c: nat, o: nat): nat
    requires c < CAPACITY
  {
    Sum(Sizes(Slots(log, []))[..c]) + o
  }

  predicate SeekAccepted(log: seq<Bytes>, c: nat, o: nat) {
    c < CAPACITY && o < |Slots(log, [])[c]|
  }

  function SeekOutcome(log: seq<Bytes>, c: nat, o: nat): Option<nat> {
    if SeekAccepted(log, c, o) then Some(SeekTarget(log, c, o)) else None
  }

  function StepIoctl(s: State, fd: Fd, cmd: nat, c: nat, o: nat, fault: Fault): (State, Outcome) {
    if cmd != AESDCHAR_IOCSEEKTO then Fail(s, ENOTTY)
    else if fault == CopyFault then Fail(s, EFAULT)
    else if fault == LockInterrupted then Fail(s, ERESTARTSYS)
    else
      var target := SeekOutcome(s.log, c, o);
      if target.None? then Fail(s, EINVAL) else (Move(s, fd, target.value), Outcome(0, []))
  }

  /** fixed_size_llseek of the kernel: the new position, or a negative error. */
  function FixedSizeLlseek(pos: nat, offset: int, whence: Whence, size: nat): (r: int)
    ensures r >= 0 ==> r <= size || (whence == SeekCur && offset == 0 && r == pos)
    ensures r >= 0 ==> whence != SeekOther
    ensures r >= 0 ==> r - offset == if whence == SeekSet then 0 else if whence == SeekCur then pos else size
    ensures r < 0 ==> r == -EINVAL
    ensures 0 <= offset <= size ==> (whence == SeekSet ==> r >= 0)
    ensures 0 <= pos + offset <= size ==> (whence == SeekCur ==> r >= 0)
    ensures 0 <= size + offset <= size ==> (whence == SeekEnd ==> r >= 0)
  {
    var target := match whence
      case SeekSet => offset
      case SeekCur => pos + offset
      case SeekEnd => size + offset
      case SeekOther => -1;
    if whence == SeekCur && offset == 0 then pos
    else if 0 <= target <= size then target
    else -EINVAL
  }

  function StepLlseek(s: State, fd: Fd, offset: int, whence: Whence, fault: Fault): (State, Outcome) {
    if fault == LockInterrupted then Fail(s, ERESTARTSYS)
    else
      var r := FixedSizeLlseek(Pos(s, fd), offset, whence, |Contents(s)|);
      if r < 0 then Fail(s, -r)
      else (Move(s, fd, r), Outcome(r, []))
  }

  function Step(s: State, op: Op): (State, Outcome) {
    match op
    case Open(fd) => (Move(s, fd, 0), Outcome(0, []))
    case Write(fd, chunk, fault) => StepWrite(s, fd, chunk, fault)
    case Read(fd, count, fault) => StepRead(s, fd, count, fault)
    case Ioctl(fd, cmd, c, o, fault) => StepIoctl(s, fd, cmd, c, o, fault)
    case Llseek(fd, offset, whence, fault) => StepLlseek(s, fd, offset, whence, fault)
  }

  /** The state after a run. */
  function Run(s: State, ops: seq<Op>): State {
    if ops == [] then s else Step(Run(s, ops[..|ops| - 1]), ops[|ops| - 1]).0
  }

  /** What operation `i` of a run returned. */
  function Result(s: State, ops: seq<Op>, i: nat): Outcome
    requires i < |ops|
  {
    Step(Run(s, ops[..i]), ops[i]).1
  }

  function Results(s: State, ops: seq<Op>): (outs: seq<Outcome>)
    ensures |outs| == |ops|
  {
    if ops == [] then []
    else
      var m := |ops| - 1;
      Results(s, ops[..m]) + [Step(Run(s, ops[..m]), ops[m]).1]
  }

  lemma {:induction false} ResultsAt(s: State, ops: seq<Op>, i: nat)
    requires i < |ops|
    ensures Results(s, ops)[i] == Result(s, ops, i)
    decreases |ops|
  {
    var m := |ops| - 1;
    if i < m {
      ResultsAt(s, ops[..m], i);
      assert ops[..m][..i] == ops[..i];
    }
  }

  lemma RunExtends(s: State, ops: seq<Op>, i: nat)
    requires i < |ops|
    ensures Run(s, ops[..i + 1]) == Step(Run(s, ops[..i]), ops[i]).0
    ensures Results(s, ops[..i + 1]) == Results(s, ops[..i]) + [Step(Run(s, ops[..i]), ops[i]).1]
  {
    assert ops[..i + 1][..i] == ops[..i];
  }

  lemma RunAppend(s: State, ops: seq<Op>, op: Op)
    ensures Run(s, ops + [op]) == Step(Run(s, ops), op).0
  {
    assert (ops + [op])[..|ops|] == ops;
  }

  lemma {:induction false} RunConcat(s: State, a: seq<Op>, b: seq<Op>)
    ensures Run(s, a + b) == Run(Run(s, a), b)
    decreases |b|
  {
    if b == [] {
      assert a + b == a;
    } else {
      var m := |b| - 1;
      RunConcat(s, a, b[..m]);
      assert a + b == (a + b[..m]) + [b[m]];
      RunAppend(s, a + b[..m], b[m]);
    }
  }
}
