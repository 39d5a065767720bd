/** With one lock order, every fair schedule completes every transfer. */
module TransferLiveness {
  import opened Bytes
  import opened Locks
  import opened Transfer
  import opened TransferSafety

  ghost function Sum(f: Process -> nat, procs: seq<Process>): nat {
    if procs == [] then 0 else Sum(f, procs[..|procs| - 1]) + f(procs[|procs| - 1])
  }

  lemma {:induction false} SumAfterUpdate(f: Process -> nat, procs: seq<Process>, i: nat, p: Process)
    requires i < |procs|
    ensures Sum(f, procs[i := p]) + f(procs[i]) == Sum(f, procs) + f(p)
    decreases |procs|
  {
    var n := |procs| - 1;
    if i == n {
      assert procs[i := p][..n] == procs[..n];
    } else {
      SumAfterUpdate(f, procs[..n], i, p);
      assert procs[i := p][..n] == procs[..n][i := p];
    }
  }

  lemma {:induction false} SumZero(f: Process -> nat, procs: seq<Process>)
    requires forall i | 0 <= i < |procs| :: f(procs[i]) == 0
    ensures Sum(f, procs) == 0
  {
    if procs != [] {
      SumZero(f, procs[..|procs| - 1]);
    }
  }

  /** More than the steps of one transfer: three legs of at most 64 bytes and four lock steps. */
  const TRANSFER_STEPS := 200

  function PcWork(pc: Pc): nat {
    match pc
    case First => TRANSFER_STEPS
    case Second => TRANSFER_STEPS - 1
    case Copying(leg, k) =>
      2 + (if k < FILE_SIZE then FILE_SIZE - k else 0)
      + (match leg case ToTmp => 2 * FILE_SIZE case ToVga => FILE_SIZE case ToSerial => 0)
    case ReleaseSecond => 2
    case ReleaseFirst => 1
  }

  /** An upper bound on the productive steps a process still has to make. */
  function Work(p: Process): nat {
    if p.left == 0 then 0 else (p.left - 1) * TRANSFER_STEPS + PcWork(p.pc)
  }

  /** The exchanges a process still has to make. */
  function Owed(p: Process): nat {
    if p.left > 0 && (p.pc == ReleaseSecond || p.pc == ReleaseFirst) then p.left - 1 else p.left
  }

  ghost function TotalWork(s: System): nat { Sum(Work, s.procs) }

  ghost function TotalOwed(s: System): nat { Sum(Owed, s.procs) }

  lemma ProcessWorkDrops(s: System, i: nat)
    requires s.Shaped() && CanMove(s, i)
    ensures var q := Step(s, i).procs[i];
            && Step(s, i).procs == s.procs[i := q]
            && Work(q) < Work(s.procs[i])
            && Step(s, i).completed + Owed(q) == s.completed + Owed(s.procs[i])
  {
    hide CopiedByte;
    var p := s.procs[i];
    match p.pc {
      case First =>
      case Second =>
      case Copying(leg, k) =>
        CopyWorkDrops(s, i);
      case ReleaseSecond =>
      case ReleaseFirst =>
        assert Step(s, i).procs[i].left == p.left - 1;
    }
  }

  lemma CopyWorkDrops(s: System, i: nat)
    requires s.Shaped() && CanMove(s, i) && s.procs[i].pc.Copying?
    ensures var q := Step(s, i).procs[i];
            && Step(s, i).procs == s.procs[i := q]
            && Work(q) < Work(s.procs[i])
            && Step(s, i).completed + Owed(q) == s.completed + Owed(s.procs[i])
  {
    var p := s.procs[i];
    var q := Step(s, i).procs[i];
    assert q.left == p.left;
    assert PcWork(q.pc) < PcWork(p.pc);
  }

  /** Every productive step lowers the remaining work; a failed XCHG changes nothing. */
  lemma StepLowersWork(s: System, i: nat, a: seq<Byte>, b: seq<Byte>)
    requires Invariant(s, a, b)
    ensures Step(s, i) == s || TotalWork(Step(s, i)) < TotalWork(s)
    ensures Step(s, i).completed + TotalOwed(Step(s, i)) == s.completed + TotalOwed(s)
  {
    hide Step, Work, Owed;
    MovesExactly(s, i, a, b);
    if CanMove(s, i) {
      ProcessWorkDrops(s, i);
      var q := Step(s, i).procs[i];
      SumAfterUpdate(Work, s.procs, i, q);
      SumAfterUpdate(Owed, s.procs, i, q);
    }
  }

  lemma {:induction false} RunLowersWork(s: System, schedule: seq<nat>, a: seq<Byte>, b: seq<Byte>)
    requires Invariant(s, a, b)
    ensures TotalWork(Run(s, schedule)) <= TotalWork(s)
    ensures Run(s, schedule).completed + TotalOwed(Run(s, schedule)) == s.completed + TotalOwed(s)
    decreases |schedule|
  {
    hide Step, TotalWork, TotalOwed, FilesHold, OwnedBy;
    if schedule != [] {
      StepLowersWork(s, schedule[0], a, b);
      StepKeepsInvariant(s, schedule[0], a, b);
      RunLowersWork(Step(s, schedule[0]), schedule[1..], a, b);
    }
  }

  /** A process that can move keeps being able to until some step is productive. */
  lemma {:induction false} ScheduledMoveLowersWork(s: System, schedule: seq<nat>, i: nat, a: seq<Byte>, b: seq<Byte>)
    requires Invariant(s, a, b) && CanMove(s, i) && i in schedule
    ensures TotalWork(Run(s, schedule)) < TotalWork(s)
    decreases |schedule|
  {
    hide Step, TotalWork, TotalOwed, FilesHold, OwnedBy;
    var j := schedule[0];
    StepLowersWork(s, j, a, b);
    StepKeepsInvariant(s, j, a, b);
    if Step(s, j) == s {
      MovesExactly(s, i, a, b);
      assert i in schedule[1..];
      ScheduledMoveLowersWork(s, schedule[1..], i, a, b);
    } else {
      RunLowersWork(Step(s, j), schedule[1..], a, b);
    }
  }

  /** Every process that has work left takes the locks in the same order. */
  predicate OneOrder(s: System) {
    forall i, j | 0 <= i < |s.procs| && 0 <= j < |s.procs| && s.procs[i].left > 0 && s.procs[j].left > 0 ::
      s.procs[i].vgaFirst == s.procs[j].vgaFirst
  }

  /** Every process is scheduled at least once. */
  predicate Covers(round: seq<nat>, n: nat) {
    forall i | 0 <= i < n :: i in round
  }

  lemma CircleHasBothOrders(s: System, a: seq<Byte>, b: seq<Byte>)
    requires Invariant(s, a, b)
    ensures CircularWait(s) ==> !OneOrder(s)
  {
    hide FilesHold;
    if p: nat, q: nat :| Facing(s, p, q) {
      assert s.procs[p].left > 0 && s.procs[q].left > 0;
    }
  }

  /** Safety and liveness meet on one condition: `OneOrder` holds if and only if no schedule of
      any length gets stuck. */
  lemma OneOrderIsDeadlockFree(s: System)
    requires Initial(s)
    ensures OneOrder(s) <==> !exists schedule :: Stuck(Run(s, schedule))
  {
    hide Run, Stuck;
    DeadlockNeedsBothOrders(s);
  }

  lemma RoundLowersWork(s: System, round: seq<nat>, a: seq<Byte>, b: seq<Byte>)
    requires Invariant(s, a, b) && OneOrder(s) && Unfinished(s) && Covers(round, |s.procs|)
    ensures TotalWork(Run(s, round)) < TotalWork(s)
  {
    SomebodyMoves(s, a, b);
    CircleHasBothOrders(s, a, b);
    var i :| CanMove(s, i);
    ScheduledMoveLowersWork(s, round, i, a, b);
  }

  function Flatten(rounds: seq<seq<nat>>): seq<nat> {
    if rounds == [] then [] else rounds[0] + Flatten(rounds[1..])
  }

  lemma {:induction false} FinishedStays(s: System, schedule: seq<nat>)
    requires s.Shaped() && !Unfinished(s)
    ensures Run(s, schedule) == s
    decreases |schedule|
  {
    if schedule != [] {
      assert Step(s, schedule[0]) == s;
      FinishedStays(s, schedule[1..]);
    }
  }

  lemma {:induction false} EnoughRoundsFinish(s: System, rounds: seq<seq<nat>>, a: seq<Byte>, b: seq<Byte>)
    requires Invariant(s, a, b) && OneOrder(s)
    requires forall r | r in rounds :: Covers(r, |s.procs|)
    requires |rounds| >= TotalWork(s)
    ensures !Unfinished(Run(s, Flatten(rounds)))
    decreases |rounds|
  {
    hide Step, TotalOwed, FilesHold, OwnedBy;
    if !Unfinished(s) {
      FinishedStays(s, Flatten(rounds));
    } else if rounds == [] {
      WorkLeft(s);
    } else {
      var t := Run(s, rounds[0]);
      RoundLowersWork(s, rounds[0], a, b);
      RunKeepsInvariant(s, rounds[0], a, b);
      RunKeepsOrders(s, rounds[0]);
      EnoughRoundsFinish(t, rounds[1..], a, b);
      RunConcat(s, rounds[0], Flatten(rounds[1..]));
    }
  }

  lemma WorkLeft(s: System)
    requires Unfinished(s)
    ensures TotalWork(s) > 0
  {
    var i :| 0 <= i < |s.procs| && s.procs[i].left > 0;
    var idle := s.procs[i].(left := 0);
    SumAfterUpdate(Work, s.procs, i, idle);
    assert Work(s.procs[i]) > 0;
  }

  lemma OwnerHolds(s: System, l: LockName, owner: int)
    requires OwnedBy(s, l, owner)
    ensures s.LockWord(l) == 0 || exists i :: 0 <= i < |s.procs| && s.procs[i].Holds(l)
  {
    if owner != NOBODY {
      assert s.procs[owner].Holds(l);
    }
  }

  lemma FinishedIsFree(t: System, a: seq<Byte>, b: seq<Byte>)
    requires Invariant(t, a, b) && !Unfinished(t)
    ensures t.vgaWord == 0 && t.serialWord == 0 && TotalOwed(t) == 0
  {
    hide FilesHold;
    SumZero(Owed, t.procs);
    var v, w :| InvariantWith(t, a, b, v, w);
    assert forall i | 0 <= i < |t.procs| :: t.procs[i].left == 0;
    assert forall i | 0 <= i < |t.procs| :: !t.procs[i].Holds(VgaLock) && !t.procs[i].Holds(SerialLock);
    OwnerHolds(t, VgaLock, v);
    OwnerHolds(t, SerialLock, w);
  }

  lemma {:induction false} SumScales(f: Process -> nat, g: Process -> nat, n: nat, procs: seq<Process>)
    requires forall i | 0 <= i < |procs| :: f(procs[i]) == n * g(procs[i])
    ensures Sum(f, procs) == n * Sum(g, procs)
  {
    if procs != [] {
      SumScales(f, g, n, procs[..|procs| - 1]);
    }
  }

  /** How many transfers a process asked for. */
  function Asked(p: Process): nat {
    p.left
  }

  /** At the start every transfer asked for is still owed, with all its steps. */
  lemma InitialOwesAll(s: System)
    requires Initial(s)
    ensures TotalOwed(s) == Sum(Asked, s.procs)
    ensures TotalWork(s) == TRANSFER_STEPS * Sum(Asked, s.procs)
  {
    SumScales(Owed, Asked, 1, s.procs);
    SumScales(Work, Asked, TRANSFER_STEPS, s.procs);
  }

  /** Any number of processes using one lock order, scheduled in rounds that leave nobody out,
      all finish; both locks are then free, as many transfers were made as the processes asked
      for in sum, and the contents
      are swapped exactly when the number of transfers is odd. */
  lemma FairRunsComplete(s: System, rounds: seq<seq<nat>>)
    requires Initial(s) && OneOrder(s)
    requires forall r | r in rounds :: Covers(r, |s.procs|)
    requires |rounds| >= TRANSFER_STEPS * Sum(Asked, s.procs)
    ensures var t := Run(s, Flatten(rounds));
            && !Unfinished(t)
            && t.vgaWord == 0 && t.serialWord == 0
            && t.completed == Sum(Asked, s.procs)
            && NUL in t.vga && NUL in t.serial
            && (Text(t.vga), Text(t.serial)) == Exchanged(Text(s.vga), Text(s.serial), t.completed)
  {
    hide Step, Run, Invariant, Exchanged, Text, Sum, TotalWork, Covers, OneOrder;
    InitialOwesAll(s);
    var a, b := Text(s.vga), Text(s.serial);
    var schedule := Flatten(rounds);
    InitialInvariant(s);
    EnoughRoundsFinish(s, rounds, a, b);
    RunKeepsInvariant(s, schedule, a, b);
    RunLowersWork(s, schedule, a, b);
    FinishedIsFree(Run(s, schedule), a, b);
    TransfersLinearize(s, schedule);
  }
}
