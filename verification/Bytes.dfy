/** Bytes and zero-terminated strings. */
module Bytes {

  type Byte = x: int | 0 <= x < 256

  const NUL: Byte := 0
  const BACKSPACE: Byte := 8
  const NEWLINE: Byte := 10
  const RETURN: Byte := 13
  const SPACE: Byte := 32
  const DELETE: Byte := 127

  /** The bytes of an ASCII literal. */
  function Ascii(s: string): (b: seq<Byte>)
    ensures |b| == |s|
  {
    seq(|s|, i requires 0 <= i < |s| => s[i] as int % 256)
  }

  /** The index of the first NUL. */
  function Length(s: seq<Byte>): (n: nat)
    requires NUL in s
    ensures n < |s| && s[n] == NUL
    ensures forall i | 0 <= i < n :: s[i] != NUL
  {
    if s[0] == NUL then 0 else 1 + Length(s[1..])
  }

  /** The string a buffer holds: the bytes before the first NUL. */
  function Text(s: seq<Byte>): (t: seq<Byte>)
    requires NUL in s
    ensures NUL !in t
  {
    s[..Length(s)]
  }

  /** The text together with its terminator. */
  function Terminated(t: seq<Byte>): (s: seq<Byte>)
    ensures NUL in s
  {
    var s := t + [NUL];
    assert s[|t|] == NUL;
    s
  }

  lemma LengthIs(s: seq<Byte>, n: nat)
    requires n < |s| && s[n] == NUL
    requires forall i | 0 <= i < n :: s[i] != NUL
    ensures Length(s) == n && Text(s) == s[..n]
  {}

  lemma TextOfTerminated(t: seq<Byte>)
    requires NUL !in t
    ensures Text(Terminated(t)) == t
  {
    LengthIs(t + [NUL], |t|);
  }

  /** The first `n` bytes, or all of them when there are fewer. */
  function Prefix<T>(s: seq<T>, n: nat): (p: seq<T>)
    ensures |p| <= n && p <= s && (|s| <= n ==> p == s) && (n <= |s| ==> |p| == n)
  {
    if n <= |s| then s[..n] else s
  }
}
