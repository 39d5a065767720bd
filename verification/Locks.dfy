/** XCHG spinlocks, the two locked files and the two demonstrations, as one processor runs them. */
module Locks {
  import opened Bytes

  const FILE_SIZE := 64

  datatype LockName = VgaLock | SerialLock

  /** What happens to the locks and to the files they protect, by lock: it is taken by the running
      process, seized on behalf of another one, waited for in vain, or released; its file is
      written. */
  datatype LockEvent =
    | Taken(l: LockName) | Seized(l: LockName) | Waiting(l: LockName) | Released(l: LockName) | Written(l: LockName)

  /** The locks taken and not released. */
  function Held(trace: seq<LockEvent>): set<LockName> {
    if trace == [] then {}
    else
      var before := Held(trace[..|trace| - 1]);
      match trace[|trace| - 1]
      case Taken(l) => before + {l}
      case Released(l) => before - {l}
      case _ => before
  }

  /** Files are written only while both locks are held, and lock_serial is taken and released
      only while lock_vga is held. */
  ghost predicate Guarded(trace: seq<LockEvent>) {
    forall i | 0 <= i < |trace| ::
      var held := Held(trace[..i]);
      match trace[i]
      case Written(_) => held == {VgaLock, SerialLock}
      case Taken(l) => l == SerialLock ==> VgaLock in held
      case Released(l) => l in held && (l == SerialLock ==> VgaLock in held)
      case _ => true
  }

  /** The ordered transfer: lock_vga before lock_serial, both files, and back in reverse order. */
  const SAFE_TRACE := [Taken(VgaLock), Taken(SerialLock), Written(VgaLock), Written(SerialLock),
                       Released(SerialLock), Released(VgaLock)]

  lemma SafeTraceIsGuarded()
    ensures Guarded(SAFE_TRACE) && Held(SAFE_TRACE) == {}
  {
    HeldAlong();
    assert SAFE_TRACE[..6] == SAFE_TRACE;
  }

  lemma HeldAlong()
    ensures Held(SAFE_TRACE[..0]) == {}
    ensures Held(SAFE_TRACE[..1]) == {VgaLock}
    ensures Held(SAFE_TRACE[..2]) == Held(SAFE_TRACE[..3]) == Held(SAFE_TRACE[..4]) == {VgaLock, SerialLock}
    ensures Held(SAFE_TRACE[..5]) == {VgaLock} && Held(SAFE_TRACE[..6]) == {}
  {
    HeldGrows(0);
    HeldGrows(1);
    HeldGrows(2);
    HeldGrows(3);
    HeldGrows(4);
    HeldGrows(5);
  }

  lemma HeldGrows(n: nat)
    requires n < 6
    ensures Held(SAFE_TRACE[..n + 1]) ==
            match SAFE_TRACE[n]
            case Taken(l) => Held(SAFE_TRACE[..n]) + {l}
            case Released(l) => Held(SAFE_TRACE[..n]) - {l}
            case _ => Held(SAFE_TRACE[..n])
  {
    assert SAFE_TRACE[..n + 1][..n] == SAFE_TRACE[..n];
  }

  class SpinLock {
    var locked: int

    constructor ()
      ensures locked == 0
    {
      locked := 0;
    }

    method AtomicXchg(val: int) returns (result: int)
      modifies this
      ensures result == old(locked) && locked == val
    {
      result := locked;
      locked := val;
    }

    /** The busy-wait, cut off after `patience` exchanges: with nobody else running it
        succeeds at its first exchange or never. */
    method Lock(patience: nat) returns (acquired: bool)
      modifies this
      ensures acquired <==> patience > 0 && old(locked) == 0
      ensures locked == if patience == 0 then old(locked) else 1
    {
      var left := patience;
      while left > 0
        invariant 0 <= left <= patience
        invariant left == patience ==> locked == old(locked)
        invariant left < patience ==> locked == 1 && old(locked) != 0
      {
        var was := AtomicXchg(1);
        left := left - 1;
        if was == 0 {
          return true;
        }
      }
      return false;
    }

    method Unlock()
      modifies this
      ensures locked == 0
    {
      locked := 0;
    }
  }

  /** One round of the copy loop into a buffer of its declared size: a byte moves, or the copy
      ends with the terminator. */
  function CopiedByte(dst: seq<Byte>, src: seq<Byte>, k: nat): (seq<Byte>, bool)
    requires k < |dst| && k < |src|
  {
    if src[k] != NUL && k + 1 < |dst| then (dst[k := src[k]], true) else (dst[k := NUL], false)
  }

  /** The buffer after the rounds from byte `k` on. */
  function CopyRounds(dst: seq<Byte>, src: seq<Byte>, k: nat): (r: seq<Byte>)
    requires k < |dst| && NUL in src && k <= Length(src)
    decreases |dst| - k
  {
    var (buffer, more) := CopiedByte(dst, src, k);
    if more then CopyRounds(buffer, src, k + 1) else buffer
  }

  /** A buffer whose first `k` bytes are already those of `src`. */
  function HalfCopied(dst: seq<Byte>, src: seq<Byte>, k: nat): seq<Byte>
    requires k <= |dst| && k <= |src|
  {
    src[..k] + dst[k..]
  }

  lemma CopyMoves(dst: seq<Byte>, src: seq<Byte>, k: nat)
    requires k < |dst| && k < |src|
    ensures HalfCopied(dst, src, k)[k := src[k]] == HalfCopied(dst, src, k + 1)
    ensures HalfCopied(dst, src, k)[k := NUL] == src[..k] + [NUL] + dst[k + 1..]
  {}

  /** The buffer after a copy cut to `max - 1` bytes: the string, the terminator, and behind
      them the bytes that were there. */
  function CopyResult(dst: seq<Byte>, src: seq<Byte>, max: nat): (r: seq<Byte>)
    requires 0 < max <= |dst| && NUL in src
    ensures |r| == |dst|
  {
    var t := Prefix(Text(src), max - 1);
    t + [NUL] + dst[|t| + 1..]
  }

  lemma CopyResultHolds(dst: seq<Byte>, src: seq<Byte>, max: nat)
    requires 0 < max <= |dst| && NUL in src
    ensures var r := CopyResult(dst, src, max);
            NUL in r && Text(r) == Prefix(Text(src), max - 1)
  {
    var t, r := Prefix(Text(src), max - 1), CopyResult(dst, src, max);
    assert r[|t|] == NUL;
    assert forall i | 0 <= i < |t| :: r[i] == Text(src)[i];
    LengthIs(r, |t|);
  }

  /** The loop stops where the string or the room ends. */
  lemma CopyStops(dst: seq<Byte>, src: seq<Byte>, max: nat, k: nat)
    requires 0 < max <= |dst| && NUL in src && k <= Length(src) && k < max
    requires src[k] == NUL || k + 1 >= max
    ensures src[..k] + [NUL] + dst[k + 1..] == CopyResult(dst, src, max)
  {
    assert Prefix(Text(src), max - 1) == src[..k];
  }

  /** The rounds of the step system add up to the same buffer. */
  lemma {:induction false} CopyRoundsResult(dst: seq<Byte>, src: seq<Byte>, k: nat)
    requires NUL in src && k <= Length(src) && k < |dst|
    ensures CopyRounds(HalfCopied(dst, src, k), src, k) == CopyResult(dst, src, |dst|)
    decreases |dst| - k
  {
    hide HalfCopied, CopyResult;
    CopyMoves(dst, src, k);
    HalfCopiedLength(dst, src, k);
    if src[k] != NUL && k + 1 < |dst| {
      CopyRoundsResult(dst, src, k + 1);
    } else {
      CopyStops(dst, src, |dst|, k);
    }
  }

  lemma HalfCopiedLength(dst: seq<Byte>, src: seq<Byte>, k: nat)
    requires k <= |dst| && k <= |src|
    ensures |HalfCopied(dst, src, k)| == |dst|
    ensures k == 0 ==> HalfCopied(dst, src, k) == dst
  {}

  /** Copies the string at the start of `src` into `dst`, cut to `max - 1` bytes, terminated;
      the rest of `dst` keeps its bytes. With `max` the size of `dst`, as in every call, this
      is what the single rounds add up to. */
  method StrCopy(dst: array<Byte>, src: seq<Byte>, max: nat)
    requires 0 < max <= dst.Length && NUL in src
    modifies dst
    ensures var t := Prefix(Text(src), max - 1);
            dst[..] == t + [NUL] + old(dst[..])[|t| + 1..] && NUL in dst[..] && Text(dst[..]) == t
    ensures max == dst.Length ==> dst[..] == CopyRounds(old(dst[..]), src, 0)
  {
    hide Text, HalfCopied, CopyRounds;
    ghost var was := dst[..];
    HalfCopiedLength(was, src, 0);
    var i := 0;
    while src[i] != NUL && i + 1 < max
      invariant 0 <= i <= Length(src) && i < max
      invariant dst[..] == HalfCopied(was, src, i)
      decreases max - i
    {
      CopyMoves(was, src, i);
      dst[i] := src[i];
      i := i + 1;
    }
    CopyMoves(was, src, i);
    dst[i] := NUL;
    CopyStops(was, src, max, i);
    CopyResultHolds(was, src, max);
    if max == dst.Length {
      CopyRoundsResult(was, src, 0);
    }
  }

  class UserFile {
    const lock: SpinLock
    const data: array<Byte>

    ghost predicate Valid()
      reads data
    {
      data.Length == FILE_SIZE && NUL in data[..]
    }

    /** The file's content as a string. */
    function Content(): (t: seq<Byte>)
      requires Valid()
      reads data
      ensures |t| < FILE_SIZE && NUL !in t
    {
      Text(data[..])
    }

    constructor ()
      ensures Valid() && fresh(lock) && fresh(data) && lock.locked == 0
    {
      lock := new SpinLock();
      data := new Byte[FILE_SIZE](_ => 0);
      new;
      assert data[..][0] == NUL;
    }
  }

  class FileStore {
    const vga: UserFile
    const serial: UserFile
    /** What has happened to the locks and files so far. */
    ghost var trace: seq<LockEvent>

    ghost predicate Valid()
      reads vga.data, serial.data
    {
      && vga.Valid() && serial.Valid()
      && vga.lock != serial.lock && vga.data != serial.data
    }

    ghost function Footprint(): set<object> {
      {this, vga.lock, vga.data, serial.lock, serial.data}
    }

    function File(l: LockName): UserFile {
      match l case VgaLock => vga case SerialLock => serial
    }

    /** The files as set up at start. */
    constructor ()
      ensures Valid() && fresh(Footprint())
      ensures vga.lock.locked == 0 && serial.lock.locked == 0
      ensures vga.Content() == Ascii("foto_ferias.png") && serial.Content() == Ascii("trabalho.pdf")
    {
      vga := new UserFile();
      serial := new UserFile();
      trace := [];
      new;
      SetUp(vga, Ascii("foto_ferias.png"));
      SetUp(serial, Ascii("trabalho.pdf"));
    }

    static method SetUp(file: UserFile, content: seq<Byte>)
      requires file.data.Length == FILE_SIZE && NUL !in content && |content| < FILE_SIZE
      modifies file.lock, file.data
      ensures file.lock.locked == 0 && file.Valid() && file.Content() == content
    {
      file.lock.locked := 0;
      TextOfTerminated(content);
      StrCopy(file.data, Terminated(content), FILE_SIZE);
    }

    method Take(l: LockName, patience: nat) returns (taken: bool)
      modifies File(l).lock, this`trace
      ensures taken <==> patience > 0 && old(File(l).lock.locked) == 0
      ensures File(l).lock.locked == if patience == 0 then old(File(l).lock.locked) else 1
      ensures trace == old(trace) + [if taken then Taken(l) else Waiting(l)]
    {
      taken := File(l).lock.Lock(patience);
      trace := trace + [if taken then Taken(l) else Waiting(l)];
    }

    method Release(l: LockName)
      modifies File(l).lock, this`trace
      ensures File(l).lock.locked == 0 && trace == old(trace) + [Released(l)]
    {
      File(l).lock.Unlock();
      trace := trace + [Released(l)];
    }

    /** The other process is simulated by storing 1 into its lock. */
    method Seize(l: LockName)
      modifies File(l).lock, this`trace
      ensures File(l).lock.locked == 1 && trace == old(trace) + [Seized(l)]
    {
      File(l).lock.locked := 1;
      trace := trace + [Seized(l)];
    }

    /** Replaces the content of a file by the string at the start of `src`. */
    method Overwrite(l: LockName, src: seq<Byte>)
      requires Valid() && NUL in src && |Text(src)| < FILE_SIZE
      modifies File(l).data, this`trace
      ensures Valid() && File(l).Content() == Text(src)
      ensures trace == old(trace) + [Written(l)]
    {
      StrCopy(File(l).data, src, FILE_SIZE);
      trace := trace + [Written(l)];
    }

    /** The three copies through a temporary buffer. */
    method Exchange()
      requires Valid()
      modifies vga.data, serial.data, this`trace
      ensures Valid()
      ensures vga.Content() == old(serial.Content()) && serial.Content() == old(vga.Content())
      ensures trace == old(trace) + [Written(VgaLock), Written(SerialLock)]
    {
      hide Text;
      assert |vga.Content()| < FILE_SIZE && |serial.Content()| < FILE_SIZE;
      var tmp := new Byte[FILE_SIZE](_ => 0);
      StrCopy(tmp, vga.data[..], FILE_SIZE);
      Overwrite(VgaLock, serial.data[..]);
      Overwrite(SerialLock, tmp[..]);
    }

    /** The unordered transfer: the process takes lock_vga, the other process seizes lock_serial,
        and the process then asks for it. However long it waits it does not return, both words
        stay 1 and no file changes. */
    method DemoUnsafe(patience: nat) returns (returned: bool)
      requires Valid() && patience > 0
      modifies vga.lock, serial.lock, this`trace
      ensures !returned
      ensures vga.lock.locked == 1 && serial.lock.locked == 1
      ensures trace == old(trace) + [Taken(VgaLock), Seized(SerialLock), Waiting(SerialLock)]
    {
      vga.lock.locked := 0;
      serial.lock.locked := 0;
      var first := Take(VgaLock, patience);
      if !first {
        return false;
      }
      Seize(SerialLock);
      returned := Take(SerialLock, patience);
    }

    /** The ordered transfer always returns, with the contents exchanged and both locks free, and
        it goes through exactly the steps of `SAFE_TRACE`. */
    method DemoSafe(patience: nat) returns (returned: bool)
      requires Valid() && patience > 0
      modifies Footprint()
      ensures Valid() && returned
      ensures vga.Content() == old(serial.Content()) && serial.Content() == old(vga.Content())
      ensures vga.lock.locked == 0 && serial.lock.locked == 0
      ensures trace == old(trace) + SAFE_TRACE
    {
      hide UserFile.Content;
      vga.lock.locked := 0;
      serial.lock.locked := 0;
      returned := Take(VgaLock, patience);
      if !returned {
        return;
      }
      returned := Take(SerialLock, patience);
      if !returned {
        return;
      }
      Exchange();
      Release(SerialLock);
      Release(VgaLock);
    }
  }
}
