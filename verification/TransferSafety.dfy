/** What every interleaving of the transfer protocol keeps, and when it can get stuck. */
module TransferSafety {
  import opened Bytes
  import opened Locks
  import opened Transfer

  /** Mutual exclusion: in every reachable state a lock word is 1 exactly when one process
      holds that lock, nobody holds a free one, and at most one process is exchanging. */
  lemma MutualExclusion(s: System, schedule: seq<nat>, l: LockName)
    requires Initial(s)
    ensures var t := Run(s, schedule);
            && (t.LockWord(l) == 0 || t.LockWord(l) == 1)
            && (t.LockWord(l) == 1 <==> exists i | 0 <= i < |t.procs| :: t.procs[i].Holds(l))
            && (forall i, j | 0 <= i < |t.procs| && 0 <= j < |t.procs|
                              && t.procs[i].Holds(l) && t.procs[j].Holds(l) :: i == j)
            && forall i, j | 0 <= i < |t.procs| && 0 <= j < |t.procs|
                             && t.procs[i].pc.Copying? && t.procs[j].pc.Copying? :: i == j
  {
    var t := Run(s, schedule);
    var a, b := Text(s.vga), Text(s.serial);
    InitialInvariant(s);
    RunKeepsInvariant(s, schedule, a, b);
    var v, w :| InvariantWith(t, a, b, v, w);
    assert OwnedBy(t, VgaLock, v) && OwnedBy(t, SerialLock, w);
    if t.LockWord(l) == 1 {
      var owner := if l == VgaLock then v else w;
      assert t.procs[owner].Holds(l);
    }
    forall i | 0 <= i < |t.procs| && t.procs[i].pc.Copying?
      ensures i == v
    {
      assert t.procs[i].Holds(VgaLock);
    }
  }

  /** Linearizability: whenever both locks are free, the contents are the original pair if the
      number of completed exchanges is even and the swapped pair if it is odd. */
  lemma TransfersLinearize(s: System, schedule: seq<nat>)
    requires Initial(s)
    ensures var t := Run(s, schedule);
            t.vgaWord == 0 && t.serialWord == 0 ==>
              && NUL in t.vga && NUL in t.serial
              && (Text(t.vga), Text(t.serial)) == Exchanged(Text(s.vga), Text(s.serial), t.completed)
  {
    var t := Run(s, schedule);
    var a, b := Text(s.vga), Text(s.serial);
    InitialInvariant(s);
    RunKeepsInvariant(s, schedule, a, b);
    var v, w :| InvariantWith(t, a, b, v, w);
    if t.vgaWord == 0 && t.serialWord == 0 {
      var (x, y) := Exchanged(a, b, t.completed);
      assert v == NOBODY;
      BufferText(t.vga, x);
      BufferText(t.serial, y);
    }
  }

  lemma BufferText(buffer: seq<Byte>, text: seq<Byte>)
    requires BufferHolds(buffer, text)
    ensures NUL in buffer && Text(buffer) == text
  {
    assert buffer[|text|] == NUL;
    forall i | 0 <= i < |text|
      ensures buffer[i] != NUL
    {
      assert buffer[..|text|][i] == text[i];
    }
    LengthIs(buffer, |text|);
  }

  // ---- deadlock ----

  predicate Unfinished(s: System) {
    exists i | 0 <= i < |s.procs| :: s.procs[i].left > 0
  }

  /** Somebody has work left and no step of anybody changes anything. */
  ghost predicate Stuck(s: System)
    requires s.Shaped()
  {
    Unfinished(s) && forall i: nat :: Step(s, i) == s
  }

  /** Process `p` has lock_vga and spins for lock_serial while `q` has it and spins for lock_vga. */
  predicate Facing(s: System, p: nat, q: nat) {
    && p < |s.procs| && q < |s.procs|
    && s.procs[p].pc == Second && s.procs[p].vgaFirst
    && s.procs[q].pc == Second && !s.procs[q].vgaFirst
  }

  ghost predicate CircularWait(s: System) {
    exists p, q :: Facing(s, p, q)
  }

  /** A process whose next step changes something: any that is not spinning on a taken lock. */
  predicate CanMove(s: System, i: nat) {
    && i < |s.procs| && s.procs[i].left > 0
    && (s.procs[i].pc == First ==> s.LockWord(s.procs[i].FirstLock()) == 0)
    && (s.procs[i].pc == Second ==> s.LockWord(s.procs[i].SecondLock()) == 0)
  }

  /** A failed XCHG leaves the whole state as it was; every other step changes it. */
  lemma MovesExactly(s: System, i: nat, a: seq<Byte>, b: seq<Byte>)
    requires Invariant(s, a, b)
    ensures CanMove(s, i) <==> Step(s, i) != s
  {
    var v, w :| InvariantWith(s, a, b, v, w);
    if i < |s.procs| && s.procs[i].left > 0 {
      var p, t := s.procs[i], Step(s, i);
      if CanMove(s, i) {
        assert t.procs[i].pc != p.pc;
      }
    }
  }

  /** Unless two processes face each other, somebody can move. */
  lemma SomebodyMoves(s: System, a: seq<Byte>, b: seq<Byte>)
    requires Invariant(s, a, b) && Unfinished(s)
    ensures CircularWait(s) || exists i :: CanMove(s, i)
  {
    var v, w :| InvariantWith(s, a, b, v, w);
    if v == NOBODY && w == NOBODY {
      var i :| 0 <= i < |s.procs| && s.procs[i].left > 0;
      assert !s.procs[i].Holds(VgaLock) && !s.procs[i].Holds(SerialLock);
      assert CanMove(s, i);
    } else if v != NOBODY {
      assert s.procs[v].Holds(VgaLock);
      if !CanMove(s, v) {
        assert w != NOBODY && s.procs[w].Holds(SerialLock);
        assert !s.procs[v].Holds(SerialLock);
        if !CanMove(s, w) {
          assert Facing(s, v, w);
        }
      }
    } else {
      assert s.procs[w].Holds(SerialLock) && !s.procs[w].Holds(VgaLock);
      assert CanMove(s, w);
    }
  }

  /** A reachable state is stuck if and only if two processes wait for each other in a circle. */
  lemma StuckIsCircularWait(s: System, schedule: seq<nat>)
    requires Initial(s)
    ensures Stuck(Run(s, schedule)) <==> CircularWait(Run(s, schedule))
  {
    InitialInvariant(s);
    RunKeepsInvariant(s, schedule, Text(s.vga), Text(s.serial));
    CircularWaitIsStuck(Run(s, schedule), Text(s.vga), Text(s.serial));
  }

  lemma CircularWaitIsStuck(t: System, a: seq<Byte>, b: seq<Byte>)
    requires Invariant(t, a, b)
    ensures Stuck(t) <==> CircularWait(t)
  {
    if CircularWait(t) {
      var p: nat, q: nat :| Facing(t, p, q);
      var v, w :| InvariantWith(t, a, b, v, w);
      assert t.procs[p].Holds(VgaLock) && t.procs[q].Holds(SerialLock);
      forall i: nat
        ensures Step(t, i) == t
      {
        if i < |t.procs| {
          assert t.procs[i].Holds(VgaLock) <==> i == p;
          assert t.procs[i].Holds(SerialLock) <==> i == q;
        }
        assert !CanMove(t, i);
        MovesExactly(t, i, a, b);
      }
      assert t.procs[p].left > 0;
    } else if Unfinished(t) {
      SomebodyMoves(t, a, b);
      var i :| CanMove(t, i);
      MovesExactly(t, i, a, b);
    }
  }

  /** Once stuck, every run of every length stays in the same state. */
  lemma {:induction false} StuckForever(s: System, schedule: seq<nat>)
    requires s.Shaped() && Stuck(s)
    ensures Run(s, schedule) == s
    decreases |schedule|
  {
    if schedule != [] {
      assert Step(s, schedule[0]) == s;
      StuckForever(s, schedule[1..]);
    }
  }

  /** Steps never change the order a process uses, nor give it more work. */
  lemma {:induction false} RunKeepsOrders(s: System, schedule: seq<nat>)
    requires s.Shaped()
    ensures forall i | 0 <= i < |s.procs| ::
              && Run(s, schedule).procs[i].vgaFirst == s.procs[i].vgaFirst
              && Run(s, schedule).procs[i].left <= s.procs[i].left
    decreases |schedule|
  {
    if schedule != [] {
      RunKeepsOrders(Step(s, schedule[0]), schedule[1..]);
    }
  }

  lemma StuckShowsBothOrders(s: System, schedule: seq<nat>)
    requires Initial(s) && Stuck(Run(s, schedule))
    ensures (exists p | 0 <= p < |s.procs| :: s.procs[p].vgaFirst && s.procs[p].left > 0)
    ensures (exists q | 0 <= q < |s.procs| :: !s.procs[q].vgaFirst && s.procs[q].left > 0)
  {
    hide Step, Run, FilesHold;
    var t := Run(s, schedule);
    var a, b := Text(s.vga), Text(s.serial);
    StuckIsCircularWait(s, schedule);
    RunKeepsOrders(s, schedule);
    InitialInvariant(s);
    RunKeepsInvariant(s, schedule, a, b);
    var p: nat, q: nat :| Facing(t, p, q);
    var v, w :| InvariantWith(t, a, b, v, w);
    assert t.procs[p].left > 0 && t.procs[q].left > 0;
    assert s.procs[p].vgaFirst && s.procs[p].left > 0;
    assert !s.procs[q].vgaFirst && s.procs[q].left > 0;
  }

  /** A system can get stuck under some schedule if and only if both lock orders occur among
      its working processes: a fixed order is exactly what excludes deadlock. */
  lemma DeadlockNeedsBothOrders(s: System)
    requires Initial(s)
    ensures (exists schedule :: Stuck(Run(s, schedule))) <==>
            && (exists p | 0 <= p < |s.procs| :: s.procs[p].vgaFirst && s.procs[p].left > 0)
            && (exists q | 0 <= q < |s.procs| :: !s.procs[q].vgaFirst && s.procs[q].left > 0)
  {
    hide Step, Run;
    if schedule :| Stuck(Run(s, schedule)) {
      StuckShowsBothOrders(s, schedule);
    }
    if p, q :| 0 <= p < |s.procs| && 0 <= q < |s.procs|
               && s.procs[p].vgaFirst && s.procs[p].left > 0
               && !s.procs[q].vgaFirst && s.procs[q].left > 0 {
      UnorderedGetsStuck(s, p, q);
    }
  }

  /** The schedule of the unordered demonstration: each process takes its own lock. */
  lemma UnorderedGetsStuck(s: System, p: nat, q: nat)
    requires Initial(s) && p < |s.procs| && q < |s.procs|
    requires s.procs[p].vgaFirst && s.procs[p].left > 0
    requires !s.procs[q].vgaFirst && s.procs[q].left > 0
    ensures Facing(Run(s, [p, q]), p, q) && Stuck(Run(s, [p, q]))
  {
    var t := Step(s, p);
    assert [p, q][1..] == [q] && [q][1..] == [];
    assert Run(s, [p, q]) == Run(t, [q]) == Run(Step(t, q), []) == Step(t, q);
    assert Facing(Step(t, q), p, q);
    StuckIsCircularWait(s, [p, q]);
  }

  /** The hierarchy over the lock words themselves: when every process takes lock_vga first, then
      in every reachable state lock_serial is taken only while lock_vga is. So it is taken after
      it and released before it. */
  lemma HierarchyHolds(s: System, schedule: seq<nat>)
    requires Initial(s)
    requires forall i | 0 <= i < |s.procs| :: s.procs[i].vgaFirst
    ensures var t := Run(s, schedule);
            t.serialWord == 1 ==> t.vgaWord == 1
  {
    hide Step, Run, FilesHold;
    var t := Run(s, schedule);
    InitialInvariant(s);
    RunKeepsInvariant(s, schedule, Text(s.vga), Text(s.serial));
    RunKeepsOrders(s, schedule);
    var v, w :| InvariantWith(t, Text(s.vga), Text(s.serial), v, w);
    if t.serialWord == 1 {
      assert t.procs[w].Holds(SerialLock);
      assert t.procs[w].vgaFirst;
      assert t.procs[w].Holds(VgaLock);
    }
  }

  /** While an exchange is in progress nothing is lost: the content that is being overwritten is
      always held by another buffer. lock_vga's file goes to the temporary buffer first, the
      other file then replaces it, and the temporary buffer replaces that one last. */
  lemma ExchangeLosesNothing(s: System, schedule: seq<nat>, i: nat)
    requires Initial(s) && i < |s.procs| && Run(s, schedule).procs[i].pc.Copying?
    ensures var t := Run(s, schedule);
            var (x, y) := Exchanged(Text(s.vga), Text(s.serial), t.completed);
            match t.procs[i].pc.leg
            case ToTmp => BufferHolds(t.vga, x) && BufferHolds(t.serial, y)
            case ToVga => BufferHolds(t.procs[i].tmp, x) && BufferHolds(t.serial, y)
            case ToSerial => BufferHolds(t.procs[i].tmp, x) && BufferHolds(t.vga, y)
  {
    hide Step, Run;
    var t := Run(s, schedule);
    InitialInvariant(s);
    RunKeepsInvariant(s, schedule, Text(s.vga), Text(s.serial));
    var v, w :| InvariantWith(t, Text(s.vga), Text(s.serial), v, w);
    assert t.procs[i].Holds(VgaLock);
  }
}
