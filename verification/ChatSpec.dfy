/** The chat meets the reference of the line editors, for every interleaving of the two users. */
module ChatSpec {
  import opened Bytes
  import opened Terminal
  import opened LineEditor
  import opened ChatModel

  /** What every run keeps while the machine is not hung. */
  ghost predicate Follows(s: Chat, es: seq<Input>, u: User) {
    && Posts(u, s.posted) == Messages(u, Typed(u, es))
    && s.Line(u) == EditAll(u, Rest(u, Typed(u, es)))
  }

  /** Somebody has completed the line that hangs the machine. */
  ghost predicate DeadlockLine(es: seq<Input>) {
    exists u :: DEADLOCK in Lines(u, Typed(u, es))
  }

  /** What one byte does to its own user's line and to the posted messages. */
  ghost predicate OwnEffect(s: Chat, t: Chat, u: User, c: Byte) {
    var line := s.Line(u);
    if IsEnter(u, c) then
      if line == DEADLOCK then
        t.hung && t.posted == s.posted && t.Line(u) == line
      else
        && !t.hung && t.Line(u) == []
        && t.posted == if line == [] || IsCommand(line) then s.posted else s.posted + [Message(u, line)]
    else
      !t.hung && t.posted == s.posted && t.Line(u) == Edit(u, line, c)
  }

  lemma KeyboardOwnEffect(s: Chat, c: Byte, banners: Banners)
    requires !s.hung
    ensures OwnEffect(s, KeyboardByte(s, c, banners), Vga, c)
  {
    hide Complete, Write, Erase, Ascii;
    CompleteEffect(s, Vga, banners);
  }

  lemma SerialOwnEffect(s: Chat, c: Byte, banners: Banners)
    requires !s.hung
    ensures OwnEffect(s, SerialByte(s, c, banners), Serial, c)
  {
    hide Complete, Write, Erase, Ascii;
    CompleteEffect(s.(sent := s.sent + [RETURN, NEWLINE]), Serial, banners);
  }

  /** One byte seen from its own user's editor. */
  lemma FeedOwn(s: Chat, e: Input, banners: Banners)
    requires !s.hung
    ensures OwnEffect(s, Feed(s, e, banners), e.user, e.byte)
  {
    hide KeyboardByte, SerialByte, OwnEffect;
    match e.user
    case Vga => KeyboardOwnEffect(s, e.byte, banners);
    case Serial => SerialOwnEffect(s, e.byte, banners);
  }

  /** ... and from the other user's. */
  lemma FeedOther(s: Chat, e: Input, banners: Banners, u: User)
    requires e.user != u
    ensures Feed(s, e, banners).Line(u) == s.Line(u)
  {
    hide Complete, Write, Erase, Ascii;
    CompleteEffect(s, Vga, banners);
    CompleteEffect(s.(sent := s.sent + [RETURN, NEWLINE]), Serial, banners);
  }

  /** One more byte keeps the reference, also when it hangs the machine: the hanging line is a
      command and posts nothing. */
  lemma FeedFollows(s: Chat, es: seq<Input>, e: Input, banners: Banners, u: User)
    requires !s.hung && Follows(s, es, u) && Follows(s, es, e.user)
    ensures var t := Feed(s, e, banners);
            && Posts(u, t.posted) == Messages(u, Typed(u, es + [e]))
            && (!t.hung ==> Follows(t, es + [e], u))
            && (t.hung <==> IsEnter(e.user, e.byte) && s.Line(e.user) == DEADLOCK)
  {
    hide Feed, EditAll, Lines, Rest, IsEnter, Edit;
    FeedOwn(s, e, banners);
    TypedGrows(u, es, e);
    if e.user == u {
      var stream := Typed(u, es);
      LinesGrow(u, stream, e.byte);
      SpokenGrows(Lines(u, stream), s.Line(u));
      PostsGrow(u, s.posted, Message(u, s.Line(u)));
    } else {
      FeedOther(s, e, banners, u);
      PostsGrow(u, s.posted, Message(e.user, s.Line(e.user)));
    }
  }

  lemma DeadlockLineGrows(es: seq<Input>, e: Input)
    ensures DeadlockLine(es + [e]) <==>
            DeadlockLine(es)
            || (IsEnter(e.user, e.byte) && EditAll(e.user, Rest(e.user, Typed(e.user, es))) == DEADLOCK)
  {
    hide EditAll, Lines, Rest, IsEnter;
    var stream := Typed(e.user, es);
    forall u: User
      ensures Typed(u, es + [e]) == if u == e.user then stream + [e.byte] else Typed(u, es)
    {
      TypedGrows(u, es, e);
    }
    LinesGrow(e.user, stream, e.byte);
    if IsEnter(e.user, e.byte) {
      var line := EditAll(e.user, Rest(e.user, stream));
      assert Lines(e.user, stream + [e.byte])[|Lines(e.user, stream)|] == line;
      assert forall x :: x in Lines(e.user, stream + [e.byte]) <==> x in Lines(e.user, stream) || x == line;
    }
  }

  /** The editing specification: as long as nobody completes a /deadlock line, each user's
      posted messages and open line are those of the reference; and the machine hangs if and
      only if somebody completes one. */
  lemma {:induction false} EditingMeetsSpec(s: Chat, es: seq<Input>, banners: Banners)
    requires Starting(s)
    ensures var t := FeedAll(s, es, banners);
            && (t.hung <==> DeadlockLine(es))
            && (!t.hung ==> forall u :: Follows(t, es, u))
    decreases |es|
  {
    hide Feed, Follows, DeadlockLine, EditAll, Rest;
    if es == [] {
      StartFollows(s);
    } else {
      var init, e := es[..|es| - 1], es[|es| - 1];
      assert es == init + [e];
      EditingMeetsSpec(s, init, banners);
      var before := FeedAll(s, init, banners);
      DeadlockLineGrows(init, e);
      if before.hung {
        HungStays(before, e, banners);
      } else {
        LineOf(before, init, e.user);
        FeedFollows(before, init, e, banners, e.user);
        forall u: User | !Feed(before, e, banners).hung
          ensures Follows(Feed(before, e, banners), es, u)
        {
          FeedFollows(before, init, e, banners, u);
        }
      }
    }
  }

  lemma LineOf(s: Chat, es: seq<Input>, u: User)
    requires Follows(s, es, u)
    ensures s.Line(u) == EditAll(u, Rest(u, Typed(u, es)))
  {}

  lemma StartFollows(s: Chat)
    requires Starting(s)
    ensures forall u :: Follows(s, [], u)
    ensures !DeadlockLine([])
  {}

  lemma HungStays(s: Chat, e: Input, banners: Banners)
    requires s.hung
    ensures Feed(s, e, banners) == s
  {}

  lemma {:induction false} HungStaysAll(s: Chat, es: seq<Input>, banners: Banners)
    requires s.hung
    ensures FeedAll(s, es, banners) == s
  {
    if es != [] {
      HungStaysAll(s, es[..|es| - 1], banners);
    }
  }

  /** In every case the run is that of the bytes up to the one that hangs the machine, and what
      was posted is exactly what the reference says of those bytes. */
  lemma {:induction false} PostedUpToHang(s: Chat, es: seq<Input>, banners: Banners) returns (n: nat)
    requires Starting(s)
    ensures n <= |es|
    ensures FeedAll(s, es[..n], banners) == FeedAll(s, es, banners)
    ensures FeedAll(s, es, banners).hung || n == |es|
    ensures n < |es| ==> DeadlockLine(es[..n])
    ensures n > 0 ==> !DeadlockLine(es[..n - 1])
    ensures forall u :: Posts(u, FeedAll(s, es, banners).posted) == Messages(u, Typed(u, es[..n]))
    decreases |es|
  {
    hide Feed, EditAll, Rest, DeadlockLine;
    if es == [] {
      StartFollows(s);
      n := 0;
    } else {
      var init, e := es[..|es| - 1], es[|es| - 1];
      var before := FeedAll(s, init, banners);
      EditingMeetsSpec(s, init, banners);
      if before.hung {
        n := PostedUpToHang(s, init, banners);
        HungStays(before, e, banners);
        assert es[..n] == init[..n];
        if n > 0 {
          assert es[..n - 1] == init[..n - 1];
        }
        assert init[..|init|] == init;
      } else {
        n := |es|;
        assert es[..n] == es == init + [e];
        assert es[..n - 1] == init;
        forall u: User
          ensures Posts(u, Feed(before, e, banners).posted) == Messages(u, Typed(u, es))
        {
          FeedFollows(before, init, e, banners, u);
        }
      }
    }
  }

  /** The two users do not interfere: when neither run hangs, equal bytes of one user give that
      user equal messages and an equal open line, whatever the other user types and however
      the two streams interleave. */
  lemma UsersDoNotInterfere(s: Chat, es: seq<Input>, t: Chat, fs: seq<Input>, banners: Banners, u: User)
    requires Starting(s) && Starting(t)
    requires Typed(u, es) == Typed(u, fs)
    requires !DeadlockLine(es) && !DeadlockLine(fs)
    ensures Posts(u, FeedAll(s, es, banners).posted) == Posts(u, FeedAll(t, fs, banners).posted)
    ensures FeedAll(s, es, banners).Line(u) == FeedAll(t, fs, banners).Line(u)
  {
    hide FeedAll, DeadlockLine;
    EditingMeetsSpec(s, es, banners);
    EditingMeetsSpec(t, fs, banners);
    assert Follows(FeedAll(s, es, banners), es, u) && Follows(FeedAll(t, fs, banners), fs, u);
  }

  /** The exclusion of /deadlock is needed: one user's command silences the other. After it,
      nothing anybody types is ever posted. */
  lemma DeadlockSilences(s: Chat, es: seq<Input>, fs: seq<Input>, banners: Banners)
    requires Starting(s) && DeadlockLine(es)
    ensures FeedAll(s, es + fs, banners) == FeedAll(s, es, banners)
  {
    EditingMeetsSpec(s, es, banners);
    FeedAllConcat(s, es, fs, banners);
    HungStaysAll(FeedAll(s, es, banners), fs, banners);
  }

  // ---- the files ----

  /** How many completed lines of both users are /transferir. */
  ghost function Transfers(es: seq<Input>): nat {
    multiset(Lines(Vga, Typed(Vga, es)))[TRANSFERIR] + multiset(Lines(Serial, Typed(Serial, es)))[TRANSFERIR]
  }

  lemma TransfersGrow(es: seq<Input>, e: Input)
    ensures Transfers(es + [e]) == Transfers(es)
            + if IsEnter(e.user, e.byte) && EditAll(e.user, Rest(e.user, Typed(e.user, es))) == TRANSFERIR then 1 else 0
  {
    hide EditAll, Lines, Rest, IsEnter;
    TypedGrows(Vga, es, e);
    TypedGrows(Serial, es, e);
    LinesGrow(e.user, Typed(e.user, es), e.byte);
  }

  lemma FeedFiles(s: Chat, e: Input, banners: Banners)
    requires !s.hung
    ensures var t := Feed(s, e, banners);
            if IsEnter(e.user, e.byte) && s.Line(e.user) == TRANSFERIR
            then t.fileVga == s.fileSerial && t.fileSerial == s.fileVga
            else t.fileVga == s.fileVga && t.fileSerial == s.fileSerial
  {
    hide Complete, Write, Erase, Ascii;
    CompleteEffect(s, Vga, banners);
    CompleteEffect(s.(sent := s.sent + [RETURN, NEWLINE]), Serial, banners);
  }

  /** No chat ever loses or duplicates a file: the contents are swapped exactly when an odd
      number of /transferir lines has been completed. */
  lemma {:induction false} FilesByParity(s: Chat, es: seq<Input>, banners: Banners)
    requires Starting(s) && !DeadlockLine(es)
    ensures var t := FeedAll(s, es, banners);
            if Transfers(es) % 2 == 0
            then t.fileVga == s.fileVga && t.fileSerial == s.fileSerial
            else t.fileVga == s.fileSerial && t.fileSerial == s.fileVga
    decreases |es|
  {
    hide Feed, EditAll, Rest, DeadlockLine;
    if es == [] {
      assert Lines(Vga, []) == [] && Lines(Serial, []) == [];
    } else {
      var init, e := es[..|es| - 1], es[|es| - 1];
      assert es == init + [e];
      var before := FeedAll(s, init, banners);
      DeadlockLineGrows(init, e);
      EditingMeetsSpec(s, init, banners);
      FilesByParity(s, init, banners);
      TransfersGrow(init, e);
      LineOf(before, init, e.user);
      FeedFiles(before, e, banners);
    }
  }
}
