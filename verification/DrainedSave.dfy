/**
 * What a drained save comes to, over every run of DrainProtocol: the bytes it
 * gives, whether it can finish, what is deleted and how much disk is held.
 */
module DrainedSave {
  import opened Bytes
  import opened Ctr
  import opened CipherStore
  import opened ChunkStore
  import opened DrainProtocol
  import BrowserCrypto

  // --- the bytes -----------------------------------------------------------------

  /**
   * In every run, whoever else reports progress, the save is given a prefix of
   * the file, the whole file once it is through, and peers are only ever given
   * true bytes. If every step was harmless it never meets a missing piece.
   */
  lemma DrainedSaveIsFaithful(job: Job, file: seq<Byte>, actions: seq<Action>)
    requires job.Valid() && job.ct == Encrypt(job.aes, job.iv, file) && Run(job, actions)
    ensures var save := After(job, actions).save;
            && save.Offset() <= |file|
            && (BrowserCrypto.NoChunkWraps(job.iv, 0, save.chunks) ==> Flatten(save.out) == file[..save.Offset()])
            && (BrowserCrypto.NoChunkWraps(job.iv, 0, save.chunks) && save.Offset() == |file|
                ==> Flatten(save.out) == file)
            && (HarmlessRun(job, actions) ==> !save.failed)
    ensures PeerInv(job, After(job, actions).served)
  {
    RunKeeps(job, actions);
    var save := After(job, actions).save;
    if HarmlessRun(job, actions) {
      HarmlessRunSafe(job, actions);
    }
    if BrowserCrypto.NoChunkWraps(job.iv, 0, save.chunks) {
      PrefixDecrypts(job.aes, job.iv, file, save.chunks);
    }
  }

  lemma PrefixDecrypts(aes: BlockCipher, iv: Counter, file: seq<Byte>, chunks: seq<seq<Byte>>)
    requires |Flatten(chunks)| <= |file| && Flatten(chunks) == Encrypt(aes, iv, file)[..|Flatten(chunks)|]
    requires BrowserCrypto.NoChunkWraps(iv, 0, chunks)
    ensures Flatten(BrowserCrypto.XoredAll(aes, iv, 0, chunks)) == file[..|Flatten(chunks)|]
  {
    BrowserCrypto.DownloadDecrypts(aes, iv, file, 0, chunks);
  }

  /**
   * From the server's hashing pass to the finished save: the torrent built
   * from the file, saved in any run, is the file again.
   */
  method Share(chunks: seq<seq<Byte>>, aes: BlockCipher, iv: Counter) returns (job: Job)
    ensures job.Valid() && job.aes == aes && job.iv == iv && |job.ct| == |Flatten(chunks)|
    ensures forall actions ::
              Run(job, actions) && After(job, actions).save.Offset() == |job.ct|
              && BrowserCrypto.NoChunkWraps(iv, 0, After(job, actions).save.chunks)
              ==> Flatten(After(job, actions).save.out) == Flatten(chunks)
  {
    var pieceLength := PieceLengthFor(|Flatten(chunks)|);
    var hashed, _ := BuildMeta(chunks, aes, iv);
    job := Job(pieceLength, hashed, aes, iv);
    forall actions |
        Run(job, actions) && After(job, actions).save.Offset() == |job.ct|
        && BrowserCrypto.NoChunkWraps(iv, 0, After(job, actions).save.chunks)
      ensures Flatten(After(job, actions).save.out) == Flatten(chunks)
    {
      DrainedSaveIsFaithful(job, Flatten(chunks), actions);
    }
  }

  // --- finishing -----------------------------------------------------------------

  /** How much the save has still to read and to hand on. */
  function ToDo(job: Job, save: Save): int {
    2 * |job.ct| - save.readPos - save.Offset()
  }

  /** Until a safe save has the whole file it can read or hand on more, and reading succeeds. */
  lemma SaveCanGoOn(job: Job, s: State) returns (a: Action)
    requires job.Valid() && Inv(job, s) && Safe(job, s) && s.save.Offset() < |job.ct|
    ensures (a.Fetch? || a.Yield?) && Enabled(job, s, a)
    ensures Inv(job, Step(job, s, a)) && Safe(job, Step(job, s, a))
    ensures 0 <= ToDo(job, Step(job, s, a).save) < ToDo(job, s.save)
  {
    if s.save.buffered != [] {
      a := Yield(|s.save.buffered|);
      HandOnKeeps(job, s.save, |s.save.buffered|);
    } else {
      a := Fetch(1);
      OneMoreByte(job, s.save);
      FetchSafe(job, s, 1);
    }
    StepKeeps(job, s, a);
    StepSafeExactly(job, s, a);
  }

  /** `longer` continues `actions` by steps of the save alone. */
  predicate Continues(longer: seq<Action>, actions: seq<Action>) {
    actions <= longer && forall k :: |actions| <= k < |longer| ==> longer[k].Fetch? || longer[k].Yield?
  }

  /** Some continuation by steps of the save alone completes it. */
  ghost predicate CanFinish(job: Job, actions: seq<Action>)
    requires job.Valid()
  {
    exists all :: Continues(all, actions) && Run(job, all) && After(job, all).save.Offset() == |job.ct|
  }

  /** A safe save can be completed from wherever a run has got to, draining or not. */
  lemma {:induction false} SaveCanFinish(job: Job, actions: seq<Action>) returns (all: seq<Action>)
    requires job.Valid() && Run(job, actions) && Safe(job, After(job, actions))
    ensures Continues(all, actions) && Run(job, all) && After(job, all).save.Offset() == |job.ct|
    decreases ToDo(job, After(job, actions).save)
  {
    if After(job, actions).save.Offset() == |job.ct| {
      all := actions;
    } else {
      var longer := RunGoesOn(job, actions);
      all := SaveCanFinish(job, longer);
    }
  }

  lemma RunGoesOn(job: Job, actions: seq<Action>) returns (longer: seq<Action>)
    requires job.Valid() && Run(job, actions) && Safe(job, After(job, actions))
    requires After(job, actions).save.Offset() != |job.ct|
    ensures Continues(longer, actions) && Run(job, longer) && Safe(job, After(job, longer))
    ensures 0 <= ToDo(job, After(job, longer).save) < ToDo(job, After(job, actions).save)
  {
    RunKeeps(job, actions);
    var a := SaveCanGoOn(job, After(job, actions));
    longer := actions + [a];
    AfterStep(job, actions, a);
  }

  lemma OneMoreByte(job: Job, save: Save)
    requires job.Valid() && !save.failed && save.readPos < |job.ct|
    ensures CanFetch(job, save, 1)
  {
    var i, from := DivMod(save.readPos, job.chunkLength);
    assert (i + 1) * job.chunkLength == i * job.chunkLength + job.chunkLength;
  }

  // --- reports that are not the save's -------------------------------------------

  /** Only the save's own steps, peers and the worker's, and no read refused. */
  predicate Quiet(all: seq<Action>, actions: seq<Action>) {
    actions <= all
    && forall k :: |actions| <= k < |all| ==> !all[k].Foreign? && !all[k].StartDraining? && !all[k].FetchRefused?
  }

  /** However the save, the peers and the worker go on, the save can still be completed. */
  ghost predicate AlwaysFinishes(job: Job, actions: seq<Action>)
    requires job.Valid()
  {
    forall all :: Quiet(all, actions) && Run(job, all) ==> CanFinish(job, all)
  }

  lemma {:induction false} QuietStaysSafe(job: Job, actions: seq<Action>, all: seq<Action>)
    requires job.Valid() && Quiet(all, actions) && Run(job, all) && Safe(job, After(job, actions))
    ensures Safe(job, After(job, all))
    decreases |all|
  {
    if |all| == |actions| {
      assert all == actions;
    } else {
      var init := all[..|all| - 1];
      QuietStaysSafe(job, actions, init);
      RunKeeps(job, init);
      StepSafeExactly(job, After(job, init), all[|all| - 1]);
    }
  }

  /** Piece `j` is gone and the save has not got through it. */
  ghost predicate Lost(job: Job, s: State, j: nat)
    requires job.Valid()
  {
    j !in s.store.files && j < job.Count() && s.save.readPos < job.End(j)
  }

  /** The save alone never gets past a lost piece. */
  lemma LostStep(job: Job, s: State, a: Action, j: nat)
    requires job.Valid() && Inv(job, s) && Lost(job, s, j)
    requires (a.Fetch? || a.Yield?) && Enabled(job, s, a)
    ensures Lost(job, Step(job, s, a), j)
  {
    if a.Fetch? {
      var i := job.PieceAt(s.save.readPos);
      FetchReads(job, s, a.len);
      if i != j {
        StopsBefore(job, s.save.readPos, a.len, j);
      }
    }
  }

  /** A read inside one piece that starts before the end of another ends before its end too. */
  lemma StopsBefore(job: Job, pos: nat, len: nat, j: nat)
    requires job.Valid() && j < job.Count() && job.PieceAt(pos) != j
    requires pos < job.End(j)
    requires pos + len <= job.End(job.PieceAt(pos))
    ensures pos + len < job.End(j)
  {
    var i, r := DivMod(pos, job.chunkLength);
    StartsInside(|job.ct|, job.chunkLength, j);
    assert (j + 1) * job.chunkLength == j * job.chunkLength + job.chunkLength;
    if i < j {
      MulMonotone(i + 1, j, job.chunkLength);
    } else {
      MulMonotone(j + 1, i, job.chunkLength);
    }
  }

  lemma {:induction false} LostForGood(job: Job, actions: seq<Action>, all: seq<Action>, j: nat)
    requires job.Valid() && Continues(all, actions) && Run(job, all) && Lost(job, After(job, actions), j)
    ensures Lost(job, After(job, all), j)
    decreases |all|
  {
    if |all| == |actions| {
      assert all == actions;
    } else {
      var init := all[..|all| - 1];
      LostForGood(job, actions, init, j);
      RunKeeps(job, init);
      LostStep(job, After(job, init), all[|all| - 1], j);
    }
  }

  lemma LostCannotFinish(job: Job, actions: seq<Action>, j: nat)
    requires job.Valid() && Run(job, actions) && Lost(job, After(job, actions), j)
    ensures !CanFinish(job, actions)
  {
    forall all | Continues(all, actions) && Run(job, all)
      ensures After(job, all).save.Offset() != |job.ct|
    {
      LostForGood(job, actions, all, j);
      RunKeeps(job, all);
    }
  }

  lemma {:induction false} FailedForGood(job: Job, actions: seq<Action>, all: seq<Action>)
    requires job.Valid() && Continues(all, actions) && Run(job, all) && After(job, actions).save.failed
    ensures all == actions
    decreases |all|
  {
    if |all| > |actions| {
      FailedForGood(job, actions, all[..|all| - 1]);
    }
  }

  /** The save can always be completed exactly while everything it has still to read stays. */
  lemma AlwaysFinishesExactly(job: Job, actions: seq<Action>)
    requires job.Valid() && Run(job, actions)
    ensures AlwaysFinishes(job, actions) <==> Safe(job, After(job, actions))
  {
    RunKeeps(job, actions);
    var s := After(job, actions);
    if Safe(job, s) {
      forall all | Quiet(all, actions) && Run(job, all)
        ensures CanFinish(job, all)
      {
        QuietStaysSafe(job, actions, all);
        var fin := SaveCanFinish(job, all);
      }
    } else {
      var all := Spoiled(job, actions);
    }
  }

  /** Otherwise the worker can take away what the save needs, if it has not done so already. */
  lemma Spoiled(job: Job, actions: seq<Action>) returns (all: seq<Action>)
    requires job.Valid() && Run(job, actions) && !Safe(job, After(job, actions))
    ensures Quiet(all, actions) && Run(job, all) && !CanFinish(job, all)
  {
    var s := After(job, actions);
    all := actions;
    if s.save.failed {
      FailedCannotFinish(job, actions);
    } else {
      var j := Endangered(job, s);
      if j in s.store.removing {
        all := actions + [RemovePiece(j)];
        AfterStep(job, actions, RemovePiece(j));
      }
      LostCannotFinish(job, all, j);
    }
  }

  lemma Endangered(job: Job, s: State) returns (j: nat)
    requires job.Valid() && !Safe(job, s) && !s.save.failed
    ensures j < job.Count() && (j !in s.store.files || j in s.store.removing)
    ensures s.save.readPos < job.End(j)
  {
    j :| job.PieceAt(s.save.readPos) <= j < job.Count() && (j !in s.store.files || j in s.store.removing);
    UnreadEnd(job, s.save.readPos, j);
  }

  lemma FailedCannotFinish(job: Job, actions: seq<Action>)
    requires job.Valid() && Run(job, actions) && After(job, actions).save.failed
    ensures !CanFinish(job, actions)
  {
    RunKeeps(job, actions);
    forall all | Continues(all, actions) && Run(job, all)
      ensures After(job, all).save.Offset() != |job.ct|
    {
      FailedForGood(job, actions, all);
    }
  }

  lemma UnreadEnd(job: Job, pos: nat, j: nat)
    requires job.Valid() && pos < |job.ct| && job.PieceAt(pos) <= j
    ensures pos < job.End(j)
  {
    var i, r := DivMod(pos, job.chunkLength);
    MulMonotone(i + 1, j + 1, job.chunkLength);
    assert (i + 1) * job.chunkLength == i * job.chunkLength + job.chunkLength;
  }

  /**
   * Exactly which step, in a run that can always finish, leaves it so: another
   * iterator's report or the start of draining may spoil it, and only when the
   * cursor then stands past the end of the piece the save needs next.
   */
  lemma StepHarmlessExactly(job: Job, actions: seq<Action>, a: Action)
    requires job.Valid() && Run(job, actions) && Enabled(job, After(job, actions), a)
    requires AlwaysFinishes(job, actions)
    ensures AlwaysFinishes(job, actions + [a]) <==> Harmless(job, After(job, actions), a)
  {
    RunKeeps(job, actions);
    AfterStep(job, actions, a);
    AlwaysFinishesExactly(job, actions);
    AlwaysFinishesExactly(job, actions + [a]);
    StepSafeExactly(job, After(job, actions), a);
  }

  /** At every moment of the run the save could always be completed. */
  ghost predicate FinishesThroughout(job: Job, actions: seq<Action>)
    requires job.Valid()
  {
    forall k: nat :: k <= |actions| ==> AlwaysFinishes(job, actions[..k])
  }

  lemma ThroughoutLonger(job: Job, actions: seq<Action>)
    requires job.Valid() && actions != []
    ensures FinishesThroughout(job, actions)
            <==> FinishesThroughout(job, actions[..|actions| - 1]) && AlwaysFinishes(job, actions)
  {
    var init := actions[..|actions| - 1];
    assert actions[..|actions|] == actions;
    assert forall k: nat :: k <= |init| ==> init[..k] == actions[..k];
  }

  /** So that is the case exactly if every step of the run was harmless. */
  lemma {:induction false} HarmlessRunExactly(job: Job, actions: seq<Action>)
    requires job.Valid() && Run(job, actions)
    ensures HarmlessRun(job, actions) <==> FinishesThroughout(job, actions)
  {
    if actions == [] {
      StartSafe(job);
      AlwaysFinishesExactly(job, []);
      assert forall k: nat :: k <= |actions| ==> actions[..k] == [];
    } else {
      HarmlessRunExactly(job, actions[..|actions| - 1]);
      LastHarmlessExactly(job, actions);
    }
  }

  lemma LastHarmlessExactly(job: Job, actions: seq<Action>)
    requires job.Valid() && Run(job, actions) && actions != []
    requires var init := actions[..|actions| - 1]; HarmlessRun(job, init) <==> FinishesThroughout(job, init)
    ensures HarmlessRun(job, actions) <==> FinishesThroughout(job, actions)
  {
    var init, a := actions[..|actions| - 1], actions[|actions| - 1];
    assert init + [a] == actions;
    ThroughoutLonger(job, actions);
    if FinishesThroughout(job, init) {
      assert AlwaysFinishes(job, init[..|init|]);
      assert init[..|init|] == init;
      StepHarmlessExactly(job, init, a);
    }
  }

  /**
   * Why the save must be the only reporter: on any non-empty file a second
   * iterator that runs ahead of the save takes its first piece away.
   */
  lemma SecondIteratorBreaksSave(job: Job)
    requires job.Valid() && job.ct != []
    ensures After(job, [StartDraining, Foreign(0, |job.ct|), RemovePiece(0), Fetch(1)]).save.failed
  {
    var all := |job.ct|;
    NotBehind(0, 0, job.chunkLength, all);
    AfterStep(job, [], StartDraining);
    assert [] + [StartDraining] == [StartDraining];
    AfterStep(job, [StartDraining], Foreign(0, all));
    assert [StartDraining] + [Foreign(0, all)] == [StartDraining, Foreign(0, all)];
    FirstPieceGoes(job);
    var gone := [StartDraining, Foreign(0, all), RemovePiece(0)];
    AfterStep(job, [StartDraining, Foreign(0, all)], RemovePiece(0));
    assert [StartDraining, Foreign(0, all)] + [RemovePiece(0)] == gone;
    FetchFromGone(job, After(job, gone));
    AfterStep(job, gone, Fetch(1));
    assert gone + [Fetch(1)] == [StartDraining, Foreign(0, all), RemovePiece(0), Fetch(1)];
  }

  lemma FetchFromGone(job: Job, s: State)
    requires job.Valid() && job.ct != [] && s.save.readPos == 0 && !s.save.failed && 0 !in s.store.files
    ensures Enabled(job, s, Fetch(1)) && Step(job, s, Fetch(1)).save.failed
  {}

  lemma FirstPieceGoes(job: Job)
    requires job.Valid() && job.ct != []
    ensures 0 in Start(job).store.Drain(job).Report(job, 0, |job.ct|).removing
  {
    NotBehind(0, 0, job.chunkLength, |job.ct|);
    var drained := Start(job).store.Drain(job);
    assert drained.progress == Progress(true, 0, 0);
    assert (0, job.Count()) in drained.Report(job, 0, |job.ct|).posted;
  }

  /**
   * Reports that are harmless one by one need not be so together: the first
   * moves the cursor into the save's piece, and the second then continues it.
   */
  lemma TwoReportsBreakSave(job: Job)
    requires job.chunkLength > 1 && |job.ct| > 1
    ensures var all := |job.ct|;
            && HarmlessRun(job, [StartDraining, Foreign(0, 1)])
            && HarmlessRun(job, [StartDraining, Foreign(1, all)])
            && !HarmlessRun(job, [StartDraining, Foreign(0, 1), Foreign(1, all)])
  {
    var all := |job.ct|;
    var s1 := DrainedStart(job);
    HarmlessLonger(job, [], StartDraining);
    assert [] + [StartDraining] == [StartDraining];
    HarmlessLonger(job, [StartDraining], Foreign(0, 1));
    assert [StartDraining] + [Foreign(0, 1)] == [StartDraining, Foreign(0, 1)];
    HarmlessLonger(job, [StartDraining], Foreign(1, all));
    assert [StartDraining] + [Foreign(1, all)] == [StartDraining, Foreign(1, all)];
    HarmlessLonger(job, [StartDraining, Foreign(0, 1)], Foreign(1, all));
    assert [StartDraining, Foreign(0, 1)] + [Foreign(1, all)] == [StartDraining, Foreign(0, 1), Foreign(1, all)];
    AfterStep(job, [StartDraining], Foreign(0, 1));
    OneByteHeard(job, s1);
  }

  lemma HarmlessLonger(job: Job, actions: seq<Action>, a: Action)
    requires job.Valid()
    ensures HarmlessRun(job, actions + [a]) <==> HarmlessRun(job, actions) && Harmless(job, After(job, actions), a)
  {
    assert (actions + [a])[..|actions|] == actions;
  }

  lemma DrainedStart(job: Job) returns (s: State)
    requires job.chunkLength > 1 && |job.ct| > 1
    ensures s == After(job, [StartDraining])
    ensures s.save == Start(job).save && s.store.progress == Progress(true, 0, 0)
    ensures Harmless(job, Start(job), StartDraining)
    ensures Harmless(job, s, Foreign(0, 1)) && Harmless(job, s, Foreign(1, |job.ct|))
  {
    AfterStep(job, [], StartDraining);
    assert [] + [StartDraining] == [StartDraining];
    s := Step(job, Start(job), StartDraining);
    assert job.PieceAt(0) == 0;
  }

  lemma OneByteHeard(job: Job, s: State)
    requires job.chunkLength > 1 && |job.ct| > 1
    requires s.save == Start(job).save && s.store.progress == Progress(true, 0, 0)
    ensures !Harmless(job, Step(job, s, Foreign(0, 1)), Foreign(1, |job.ct|))
  {
    assert job.PieceAt(0) == 0 && 1 / job.chunkLength == 0;
    assert Step(job, s, Foreign(0, 1)).store.progress == Progress(true, 0, 1);
    NotBehind(0, 0, job.chunkLength, |job.ct|);
  }

  // --- what is deleted -----------------------------------------------------------

  /** Reports the cursor does not take for the save's: they start past it or end behind it. */
  predicate Ignored(job: Job, actions: seq<Action>)
    requires job.Valid()
  {
    actions == []
    || (var init, a := actions[..|actions| - 1], actions[|actions| - 1];
        Ignored(job, init)
        && (a.Foreign? ==> var at := After(job, init).save.Offset(); a.start > at || a.end <= at))
  }

  /** Then the store's cursor stands exactly where the save does. */
  lemma {:induction false} CursorIsSave(job: Job, actions: seq<Action>)
    requires job.Valid() && Run(job, actions) && Ignored(job, actions)
    ensures After(job, actions).store.progress.consumed == After(job, actions).save.Offset()
  {
    if actions != [] {
      var init := actions[..|actions| - 1];
      CursorIsSave(job, init);
      RunKeeps(job, init);
      CursorStep(job, After(job, init), actions[|actions| - 1]);
    }
  }

  lemma CursorStep(job: Job, s: State, a: Action)
    requires job.Valid() && Inv(job, s) && Enabled(job, s, a) && s.store.progress.consumed == s.save.Offset()
    requires a.Foreign? ==> a.start > s.save.Offset() || a.end <= s.save.Offset()
    ensures Step(job, s, a).store.progress.consumed == Step(job, s, a).save.Offset()
  {
    match a
    case Fetch(len) => FetchKeeps(job, s, len);
    case Yield(n) =>
      HandOnKeeps(job, s.save, n);
      ReportKeeps(job, s.store, s.save.Offset(), s.save.Offset() + n);
    case StartDraining => DrainKeeps(job, s.store);
    case Foreign(start, end) => ReportKeeps(job, s.store, start, end);
    case _ =>
  }

  predicate NoneRefused(actions: seq<Action>) {
    forall a :: a in actions ==> !a.FetchRefused?
  }

  /** Such runs are harmless, refused reads aside. */
  lemma {:induction false} IgnoredIsHarmless(job: Job, actions: seq<Action>)
    requires job.Valid() && Run(job, actions) && Ignored(job, actions)
    ensures HarmlessRun(job, actions) <==> NoneRefused(actions)
  {
    if actions != [] {
      var init, a := actions[..|actions| - 1], actions[|actions| - 1];
      IgnoredIsHarmless(job, init);
      assert NoneRefused(actions) <==> NoneRefused(init) && !a.FetchRefused?;
      LastIgnored(job, init, a);
    }
  }

  lemma LastIgnored(job: Job, init: seq<Action>, a: Action)
    requires job.Valid() && Run(job, init) && Ignored(job, init) && Enabled(job, After(job, init), a)
    requires a.Foreign? ==> var at := After(job, init).save.Offset(); a.start > at || a.end <= at
    ensures Harmless(job, After(job, init), a) <==> !a.FetchRefused?
  {
    CursorIsSave(job, init);
    RunKeeps(job, init);
    var s := After(job, init);
    if s.save.readPos < |job.ct| && !s.store.progress.draining {
      OffsetStopsShort(job, s.store, s.save.Offset(), s.save.readPos);
    }
  }

  lemma OffsetStopsShort(job: Job, store: Store, offset: nat, readPos: nat)
    requires job.Valid() && store.progress.reapedUpTo == 0 && offset <= readPos < |job.ct|
    ensures StopsShort(job, store, job.PieceAt(readPos), offset)
  {
    UnreadEnd(job, readPos, job.PieceAt(readPos));
    assert FirstUnposted(store, job.PieceAt(readPos)) == job.PieceAt(readPos);
  }

  /**
   * While draining, the posted removals are consecutive and cover exactly the
   * pieces whose last byte the cursor has passed, which is never behind the
   * save; after a full pass only pieces that could not be removed are left.
   */
  lemma RemovalsExact(job: Job, actions: seq<Action>)
    requires job.Valid() && Run(job, actions)
    ensures var s := After(job, actions);
            var consumed, reaped := s.store.progress.consumed, s.store.progress.reapedUpTo;
            && Consecutive(s.store.posted, reaped)
            && s.save.Offset() <= consumed && (Ignored(job, actions) ==> consumed == s.save.Offset())
            && (!s.store.progress.draining ==> s.store.posted == [] && s.store.files.Keys == Range(0, job.Count()))
            && (s.store.progress.draining ==>
                  forall i: nat :: i < job.Count() ==>
                    (i < reaped <==> job.End(i) <= consumed))
            && (s.store.progress.draining && s.save.Offset() == |job.ct| && s.store.removing == {}
                ==> s.store.files.Keys == s.store.stuck)
  {
    RunKeeps(job, actions);
    var s := After(job, actions);
    if Ignored(job, actions) {
      CursorIsSave(job, actions);
    }
    forall i: nat | s.store.progress.draining && i < job.Count()
      ensures i < s.store.progress.reapedUpTo <==> job.End(i) <= s.store.progress.consumed
    {
      BehindExact(s.store.progress.consumed, job.chunkLength, |job.ct|, i);
    }
  }

  /** Bytes held in piece files with index below `n`. */
  function Stored(files: map<nat, seq<Byte>>, n: nat): nat {
    if n == 0 then 0
    else Stored(files, n - 1) + (if n - 1 in files then |files[n - 1]| else 0)
  }

  lemma {:induction false} StoredFrom(job: Job, files: map<nat, seq<Byte>>, low: nat, n: nat)
    requires job.Valid() && n <= job.Count() && low <= n
    requires forall i :: i in files <==> low <= i < job.Count()
    requires forall i :: i in files ==> files[i] == Piece(job.ct, job.chunkLength, i)
    ensures Stored(files, n) == Min(n * job.chunkLength, |job.ct|) - Min(low * job.chunkLength, |job.ct|)
    decreases n
  {
    if n == low {
      StoredNone(job, files, low, n);
    } else {
      StoredFrom(job, files, low, n - 1);
      PieceLength(job.ct, job.chunkLength, n - 1);
    }
  }

  lemma {:induction false} StoredNone(job: Job, files: map<nat, seq<Byte>>, low: nat, n: nat)
    requires job.Valid() && n <= low
    requires forall i :: i in files ==> low <= i
    ensures Stored(files, n) == 0
  {
    if n > 0 {
      StoredNone(job, files, low, n - 1);
    }
  }

  /**
   * Peak disk use: once the posted removals have been tried, the pieces still
   * held, less those that could not be removed, and the bytes already saved
   * together stay below one file plus one piece.
   */
  lemma DrainBoundsDiskUse(job: Job, actions: seq<Action>)
    requires job.Valid() && Run(job, actions)
    requires After(job, actions).store.progress.draining && After(job, actions).store.removing == {}
    ensures var s := After(job, actions);
            Stored(s.store.files - s.store.stuck, job.Count()) + s.save.Offset() < |job.ct| + job.chunkLength
  {
    RunKeeps(job, actions);
    var s := After(job, actions);
    var consumed, low := s.store.progress.consumed, s.store.progress.reapedUpTo;
    StoredFrom(job, s.store.files - s.store.stuck, low, job.Count());
    var n, r := DivMod(|job.ct| + job.chunkLength - 1, job.chunkLength);
    if consumed < |job.ct| {
      var q, t := DivMod(consumed, job.chunkLength);
    }
  }
}
