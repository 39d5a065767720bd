/** The transfer protocol as a step system: any number of processes, each repeating the
    transfer, interleaved at every XCHG, every copied byte and every release. */
module Transfer {
  import opened Bytes
  import opened Locks

  /** The three string copies of the exchange, by destination. */
  datatype Leg = ToTmp | ToVga | ToSerial

  /** Where a process is: spinning for its first or second lock, about to copy byte `k` of a
      leg, or about to release. */
  datatype Pc = First | Second | Copying(leg: Leg, k: nat) | ReleaseSecond | ReleaseFirst

  /** A process with `left` transfers to go and the order in which it takes the locks. */
  datatype Process = Process(vgaFirst: bool, pc: Pc, left: nat, tmp: seq<Byte>)
  {
    function FirstLock(): LockName { if vgaFirst then VgaLock else SerialLock }
    function SecondLock(): LockName { if vgaFirst then SerialLock else VgaLock }

    predicate Holds(l: LockName) {
      || (pc != First && l == FirstLock())
      || ((pc.Copying? || pc == ReleaseSecond) && l == SecondLock())
    }
  }

  /** Lock words, file buffers, processes, and the number of exchanges made so far. */
  datatype System = System(vgaWord: int, serialWord: int, vga: seq<Byte>, serial: seq<Byte>,
                           procs: seq<Process>, completed: nat)
  {
    function LockWord(l: LockName): int {
      if l == VgaLock then vgaWord else serialWord
    }

    function WithWord(l: LockName, v: int): System {
      if l == VgaLock then this.(vgaWord := v) else this.(serialWord := v)
    }

    function WithPc(i: nat, pc: Pc): System
      requires i < |procs|
    {
      this.(procs := procs[i := procs[i].(pc := pc)])
    }

    /** Buffers have their declared size and copy indices are inside them. */
    predicate Shaped() {
      && |vga| == FILE_SIZE && |serial| == FILE_SIZE
      && forall i | 0 <= i < |procs| ::
           |procs[i].tmp| == FILE_SIZE && (procs[i].pc.Copying? ==> procs[i].pc.k < FILE_SIZE)
    }
  }

  // ---- steps ----

  /** `while (xchg(lock, 1) != 0)`: one exchange; the process moves on if the word was 0. */
  function Acquire(s: System, i: nat, l: LockName, next: Pc): System
    requires i < |s.procs|
  {
    var was := s.LockWord(l);
    var t := s.WithWord(l, 1);
    if was != 0 then t else t.WithPc(i, next)
  }

  function CopyStep(s: System, i: nat): System
    requires s.Shaped() && i < |s.procs| && s.procs[i].pc.Copying?
  {
    var p := s.procs[i];
    var k := p.pc.k;
    match p.pc.leg
    case ToTmp =>
      var (buffer, more) := CopiedByte(p.tmp, s.vga, k);
      var pc := if more then Copying(ToTmp, k + 1) else Copying(ToVga, 0);
      s.(procs := s.procs[i := p.(tmp := buffer, pc := pc)])
    case ToVga =>
      var (buffer, more) := CopiedByte(s.vga, s.serial, k);
      var pc := if more then Copying(ToVga, k + 1) else Copying(ToSerial, 0);
      s.(vga := buffer).WithPc(i, pc)
    case ToSerial =>
      var (buffer, more) := CopiedByte(s.serial, p.tmp, k);
      if more then s.(serial := buffer).WithPc(i, Copying(ToSerial, k + 1))
      else s.(serial := buffer, completed := s.completed + 1).WithPc(i, ReleaseSecond)
  }

  /** One step of process `i`; a process with nothing left to do stays put. */
  function Step(s: System, i: nat): (t: System)
    requires s.Shaped()
    ensures t.Shaped() && |t.procs| == |s.procs|
  {
    if i >= |s.procs| || s.procs[i].left == 0 then s
    else
      var p := s.procs[i];
      match p.pc
      case First => Acquire(s, i, p.FirstLock(), Second)
      case Second => Acquire(s, i, p.SecondLock(), Copying(ToTmp, 0))
      case Copying(_, _) => CopyStep(s, i)
      case ReleaseSecond => s.WithWord(p.SecondLock(), 0).WithPc(i, ReleaseFirst)
      case ReleaseFirst =>
        var t := s.WithWord(p.FirstLock(), 0);
        t.(procs := t.procs[i := p.(pc := First, left := p.left - 1)])
  }

  /** A run under a schedule: the process chosen at each step is arbitrary. */
  function Run(s: System, schedule: seq<nat>): (t: System)
    requires s.Shaped()
    ensures t.Shaped() && |t.procs| == |s.procs|
    decreases |schedule|
  {
    if schedule == [] then s else Run(Step(s, schedule[0]), schedule[1..])
  }

  lemma {:induction false} RunConcat(s: System, a: seq<nat>, b: seq<nat>)
    requires s.Shaped()
    ensures Run(s, a + b) == Run(Run(s, a), b)
    decreases |a|
  {
    if a == [] {
      assert a + b == b;
    } else {
      assert (a + b)[1..] == a[1..] + b;
      RunConcat(Step(s, a[0]), a[1..], b);
    }
  }

  /** Both locks free, both files holding strings, no process started. */
  ghost predicate Initial(s: System) {
    && s.Shaped()
    && s.vgaWord == 0 && s.serialWord == 0 && s.completed == 0
    && NUL in s.vga && NUL in s.serial
    && forall i | 0 <= i < |s.procs| :: s.procs[i].pc == First
  }

  // ---- the invariant ----

  const NOBODY := -1

  predicate BufferHolds(buffer: seq<Byte>, text: seq<Byte>) {
    && |buffer| == FILE_SIZE && |text| < FILE_SIZE && NUL !in text
    && buffer[..|text|] == text && buffer[|text|] == NUL
  }

  predicate Copied(buffer: seq<Byte>, text: seq<Byte>, k: nat) {
    |buffer| == FILE_SIZE && k <= |text| < FILE_SIZE && buffer[..k] == text[..k]
  }

  /** The lock word is 1 exactly when its owner is a process, which alone holds it. */
  ghost predicate OwnedBy(s: System, l: LockName, owner: int) {
    && NOBODY <= owner < |s.procs|
    && s.LockWord(l) == (if owner == NOBODY then 0 else 1)
    && forall i | 0 <= i < |s.procs| :: s.procs[i].Holds(l) <==> i == owner
  }

  /** The files hold `a` and `b`, except for what the exchange in progress already moved. */
  ghost predicate FilesHold(s: System, owner: int, a: seq<Byte>, b: seq<Byte>) {
    if 0 <= owner < |s.procs| && s.procs[owner].pc.Copying? then
      var p := s.procs[owner];
      match p.pc.leg
      case ToTmp => BufferHolds(s.vga, a) && BufferHolds(s.serial, b) && Copied(p.tmp, a, p.pc.k)
      case ToVga => BufferHolds(p.tmp, a) && BufferHolds(s.serial, b) && Copied(s.vga, b, p.pc.k)
      case ToSerial => BufferHolds(p.tmp, a) && BufferHolds(s.vga, b) && Copied(s.serial, a, p.pc.k)
    else
      BufferHolds(s.vga, a) && BufferHolds(s.serial, b)
  }

  /** The pair of contents after `n` exchanges of (a, b). */
  function Exchanged(a: seq<Byte>, b: seq<Byte>, n: nat): (seq<Byte>, seq<Byte>) {
    if n % 2 == 0 then (a, b) else (b, a)
  }

  ghost predicate InvariantWith(s: System, a: seq<Byte>, b: seq<Byte>, vgaOwner: int, serialOwner: int) {
    && s.Shaped()
    && OwnedBy(s, VgaLock, vgaOwner)
    && OwnedBy(s, SerialLock, serialOwner)
    && (forall i | 0 <= i < |s.procs| && s.procs[i].left == 0 :: s.procs[i].pc == First)
    && var (x, y) := Exchanged(a, b, s.completed);
       FilesHold(s, vgaOwner, x, y)
  }

  ghost predicate Invariant(s: System, a: seq<Byte>, b: seq<Byte>) {
    exists vgaOwner, serialOwner :: InvariantWith(s, a, b, vgaOwner, serialOwner)
  }

  lemma InitialInvariant(s: System)
    requires Initial(s)
    ensures Invariant(s, Text(s.vga), Text(s.serial))
  {
    assert InvariantWith(s, Text(s.vga), Text(s.serial), NOBODY, NOBODY);
  }

  lemma CopyKeeps(dst: seq<Byte>, src: seq<Byte>, text: seq<Byte>, k: nat)
    requires k < FILE_SIZE && BufferHolds(src, text) && Copied(dst, text, k)
    ensures var (buffer, more) := CopiedByte(dst, src, k);
            if more then Copied(buffer, text, k + 1) else BufferHolds(buffer, text)
  {
    if k < |text| {
      assert src[k] == text[k];
      assert dst[k := src[k]][..k + 1] == text[..k + 1];
    } else {
      assert dst[k := NUL][..k] == text;
    }
  }

  lemma AcquireKeeps(s: System, i: nat, a: seq<Byte>, b: seq<Byte>, v: int, w: int)
    requires InvariantWith(s, a, b, v, w) && i < |s.procs|
    requires s.procs[i].left > 0 && (s.procs[i].pc == First || s.procs[i].pc == Second)
    ensures Invariant(Step(s, i), a, b)
  {
    var p := s.procs[i];
    var l := if p.pc == First then p.FirstLock() else p.SecondLock();
    var t := Step(s, i);
    if s.LockWord(l) != 0 {
      assert t == s;
    } else if l == VgaLock {
      assert InvariantWith(t, a, b, i, w);
    } else {
      assert InvariantWith(t, a, b, v, i);
    }
  }

  /** A step inside the exchange leaves both locks with their owner. */
  lemma CopyStepKeepsOwners(s: System, i: nat, l: LockName)
    requires s.Shaped() && OwnedBy(s, l, i) && i < |s.procs|
    requires s.procs[i].left > 0 && s.procs[i].pc.Copying?
    ensures OwnedBy(Step(s, i), l, i)
  {
    hide CopiedByte;
    var t := Step(s, i);
    forall j | 0 <= j < |t.procs|
      ensures t.procs[j].Holds(l) <==> j == i
    {
      assert s.procs[j].Holds(l) <==> j == i;
      if j != i {
        assert t.procs[j] == s.procs[j];
      } else {
        assert t.procs[i].pc.Copying? || t.procs[i].pc == ReleaseSecond;
      }
    }
  }

  lemma CopyStepKeepsFiles(s: System, i: nat, a: seq<Byte>, b: seq<Byte>)
    requires s.Shaped() && i < |s.procs| && FilesHold(s, i, a, b)
    requires s.procs[i].left > 0 && s.procs[i].pc.Copying?
    ensures var t := Step(s, i);
            if t.completed == s.completed then FilesHold(t, i, a, b)
            else t.completed == s.completed + 1 && FilesHold(t, i, b, a)
  {
    hide BufferHolds, Copied, CopiedByte;
    var p := s.procs[i];
    match p.pc.leg {
      case ToTmp =>
        CopyKeeps(p.tmp, s.vga, a, p.pc.k);
        CopyStart(s.vga, a, s.serial, b);
      case ToVga =>
        CopyKeeps(s.vga, s.serial, b, p.pc.k);
        CopyStart(s.serial, b, p.tmp, a);
      case ToSerial =>
        CopyKeeps(s.serial, p.tmp, a, p.pc.k);
    }
  }

  lemma CopyStart(buffer: seq<Byte>, held: seq<Byte>, next: seq<Byte>, text: seq<Byte>)
    requires BufferHolds(buffer, held) && BufferHolds(next, text)
    ensures Copied(buffer, text, 0)
  {}

  lemma CopyStepKeeps(s: System, i: nat, a: seq<Byte>, b: seq<Byte>, v: int, w: int)
    requires InvariantWith(s, a, b, v, w) && i < |s.procs|
    requires s.procs[i].left > 0 && s.procs[i].pc.Copying?
    ensures Invariant(Step(s, i), a, b)
  {
    hide CopiedByte, FilesHold;
    assert s.procs[i].Holds(VgaLock) && s.procs[i].Holds(SerialLock);
    assert v == i && w == i;
    var t := Step(s, i);
    var (x, y) := Exchanged(a, b, s.completed);
    CopyStepKeepsOwners(s, i, VgaLock);
    CopyStepKeepsOwners(s, i, SerialLock);
    CopyStepKeepsFiles(s, i, x, y);
    assert t.completed == s.completed || Exchanged(a, b, t.completed) == (y, x);
    assert InvariantWith(t, a, b, v, w);
  }

  lemma ReleaseKeeps(s: System, i: nat, a: seq<Byte>, b: seq<Byte>, v: int, w: int)
    requires InvariantWith(s, a, b, v, w) && i < |s.procs|
    requires s.procs[i].left > 0 && (s.procs[i].pc == ReleaseSecond || s.procs[i].pc == ReleaseFirst)
    ensures Invariant(Step(s, i), a, b)
  {
    var p := s.procs[i];
    var l := if p.pc == ReleaseFirst then p.FirstLock() else p.SecondLock();
    var t := Step(s, i);
    assert p.Holds(l);
    if l == VgaLock {
      assert InvariantWith(t, a, b, NOBODY, w);
    } else {
      assert InvariantWith(t, a, b, v, NOBODY);
    }
  }

  lemma StepKeepsInvariant(s: System, i: nat, a: seq<Byte>, b: seq<Byte>)
    requires Invariant(s, a, b)
    ensures Invariant(Step(s, i), a, b)
  {
    var v, w :| InvariantWith(s, a, b, v, w);
    if i < |s.procs| && s.procs[i].left > 0 {
      match s.procs[i].pc
      case First => AcquireKeeps(s, i, a, b, v, w);
      case Second => AcquireKeeps(s, i, a, b, v, w);
      case Copying(_, _) => CopyStepKeeps(s, i, a, b, v, w);
      case ReleaseSecond => ReleaseKeeps(s, i, a, b, v, w);
      case ReleaseFirst => ReleaseKeeps(s, i, a, b, v, w);
    }
  }

  lemma {:induction false} RunKeepsInvariant(s: System, schedule: seq<nat>, a: seq<Byte>, b: seq<Byte>)
    requires Invariant(s, a, b)
    ensures Invariant(Run(s, schedule), a, b)
    decreases |schedule|
  {
    if schedule != [] {
      StepKeepsInvariant(s, schedule[0], a, b);
      RunKeepsInvariant(Step(s, schedule[0]), schedule[1..], a, b);
    }
  }
}
