/**
 * The per-file lock chain of apps/desktop/electron/pieceCache.cts as a state
 * machine. A call on a path chains behind the promise the map holds for that
 * path; operations then start, work on the file and settle in any
 * interleaving the chain allows, and each cleans the map up some time later.
 */
module PieceCache {
  import opened Bytes

  type Path = string

  type Content = Option<seq<Byte>>

  datatype Kind = Put(buf: seq<Byte>) | Get | Remove

  datatype Phase = Waiting | Running | Settled

  datatype Op = Op(
    path: Path,
    kind: Kind,
    prev: Option<nat>,   // the operation whose promise this one waits for
    phase: Phase,
    ok: bool,            // whether it settled successfully
    after: Content,      // what it left in the file (for a read: what it saw)
    cleaned: bool        // its `finally` has run
  )

  datatype State = State(ops: seq<Op>, locks: map<Path, nat>, files: map<Path, seq<Byte>>)

  datatype Action =
    | Call(path: Path, kind: Kind)
    | Begin(n: nat)
    | Tear(n: nat, half: seq<Byte>)          // a running write has got partway
    | Finish(n: nat, ok: bool, left: Content) // a failed operation may leave anything
    | Cleanup(n: nat)

  function OnFile(files: map<Path, seq<Byte>>, p: Path): Content {
    if p in files then Some(files[p]) else None
  }

  function WithFile(files: map<Path, seq<Byte>>, p: Path, c: Content): map<Path, seq<Byte>> {
    if c.Some? then files[p := c.value] else files - {p}
  }

  predicate Enabled(s: State, a: Action) {
    match a
    case Call(_, _) => true
    case Begin(n) =>
      n < |s.ops| && s.ops[n].phase == Waiting
      && (s.ops[n].prev.Some? ==> s.ops[n].prev.value < |s.ops| && s.ops[s.ops[n].prev.value].phase == Settled)
    case Tear(n, _) => n < |s.ops| && s.ops[n].phase == Running && s.ops[n].kind.Put?
    case Finish(n, _, _) => n < |s.ops| && s.ops[n].phase == Running
    case Cleanup(n) => n < |s.ops| && s.ops[n].phase == Settled && !s.ops[n].cleaned
  }

  /** What a settling operation leaves in its file. */
  function Effect(kind: Kind, ok: bool, left: Content, now: Content): Content {
    match kind
    case Get => now
    case Put(buf) => if ok then Some(buf) else left
    case Remove => if ok then None else left
  }

  function Step(s: State, a: Action): State
    requires Enabled(s, a)
  {
    match a
    case Call(p, kind) =>
      var prev := if p in s.locks then Some(s.locks[p]) else None;
      s.(ops := s.ops + [Op(p, kind, prev, Waiting, false, None, false)], locks := s.locks[p := |s.ops|])
    case Begin(n) => s.(ops := s.ops[n := s.ops[n].(phase := Running)])
    case Tear(n, half) => s.(files := s.files[s.ops[n].path := half])
    case Finish(n, ok, left) =>
      var op := s.ops[n];
      var after := Effect(op.kind, ok, left, OnFile(s.files, op.path));
      State(s.ops[n := op.(phase := Settled, ok := ok, after := after)], s.locks, WithFile(s.files, op.path, after))
    case Cleanup(n) =>
      var op := s.ops[n];
      s.(ops := s.ops[n := op.(cleaned := true)],
         locks := if op.path in s.locks && s.locks[op.path] == n then s.locks - {op.path} else s.locks)
  }

  predicate Run(files: map<Path, seq<Byte>>, actions: seq<Action>) {
    actions == []
    || (Run(files, actions[..|actions| - 1])
        && Enabled(After(files, actions[..|actions| - 1]), actions[|actions| - 1]))
  }

  function After(files: map<Path, seq<Byte>>, actions: seq<Action>): State {
    if actions == [] then State([], map[], files)
    else
      var s := After(files, actions[..|actions| - 1]);
      var a := actions[|actions| - 1];
      if Enabled(s, a) then Step(s, a) else s
  }

  // --- the chain -----------------------------------------------------------------

  /** Operations on one path start only when every earlier one on it has settled. */
  ghost predicate InOrder(ops: seq<Op>) {
    forall a, b :: 0 <= a < b < |ops| && ops[a].path == ops[b].path && ops[b].phase != Waiting
                   ==> ops[a].phase == Settled
  }

  ghost predicate PrevRight(ops: seq<Op>, n: nat)
    requires n < |ops|
  {
    match ops[n].prev
    case None => forall a :: 0 <= a < n && ops[a].path == ops[n].path ==> ops[a].phase == Settled
    case Some(m) =>
      m < n && ops[m].path == ops[n].path && forall a :: m < a < n ==> ops[a].path != ops[n].path
  }

  /** The map holds the last operation of a path, and is without one only when all have settled. */
  ghost predicate LocksRight(s: State) {
    && (forall p :: p in s.locks ==>
          s.locks[p] < |s.ops| && s.ops[s.locks[p]].path == p
          && forall a :: s.locks[p] < a < |s.ops| ==> s.ops[a].path != p)
    && (forall a :: 0 <= a < |s.ops| && s.ops[a].path !in s.locks ==> s.ops[a].phase == Settled)
  }

  ghost predicate ChainInv(s: State) {
    InOrder(s.ops) && (forall n :: 0 <= n < |s.ops| ==> PrevRight(s.ops, n)) && LocksRight(s)
  }

  lemma CallChains(s: State, p: Path, kind: Kind)
    requires ChainInv(s)
    ensures ChainInv(Step(s, Call(p, kind)))
  {
    var s' := Step(s, Call(p, kind));
    forall n | 0 <= n < |s'.ops|
      ensures PrevRight(s'.ops, n)
    {
      if n < |s.ops| {
        assert PrevRight(s.ops, n);
      }
    }
  }

  lemma BeginChains(s: State, n: nat)
    requires ChainInv(s) && Enabled(s, Begin(n))
    ensures ChainInv(Step(s, Begin(n)))
  {
    var s' := Step(s, Begin(n));
    assert PrevRight(s.ops, n);
    forall k | 0 <= k < |s'.ops|
      ensures PrevRight(s'.ops, k)
    {
      assert PrevRight(s.ops, k);
    }
  }

  lemma FinishChains(s: State, n: nat, ok: bool, left: Content)
    requires ChainInv(s) && Enabled(s, Finish(n, ok, left))
    ensures ChainInv(Step(s, Finish(n, ok, left)))
  {
    var s' := Step(s, Finish(n, ok, left));
    forall k | 0 <= k < |s'.ops|
      ensures PrevRight(s'.ops, k)
    {
      assert PrevRight(s.ops, k);
    }
  }

  lemma CleanupChains(s: State, n: nat)
    requires ChainInv(s) && Enabled(s, Cleanup(n))
    ensures ChainInv(Step(s, Cleanup(n)))
  {
    var s' := Step(s, Cleanup(n));
    forall k | 0 <= k < |s'.ops|
      ensures PrevRight(s'.ops, k)
    {
      assert PrevRight(s.ops, k);
    }
  }

  lemma StepChains(s: State, a: Action)
    requires ChainInv(s) && Enabled(s, a)
    ensures ChainInv(Step(s, a))
  {
    match a
    case Call(p, kind) => CallChains(s, p, kind);
    case Begin(n) => BeginChains(s, n);
    case Tear(n, half) =>
    case Finish(n, ok, left) => FinishChains(s, n, ok, left);
    case Cleanup(n) => CleanupChains(s, n);
  }

  // --- the file ------------------------------------------------------------------

  /** What path `p` holds after the settled ones of the first `k` calls ran one by one. */
  function Serial(files: map<Path, seq<Byte>>, ops: seq<Op>, p: Path, k: nat): Content
    requires k <= |ops|
  {
    if k == 0 then OnFile(files, p)
    else if ops[k - 1].path == p && ops[k - 1].phase == Settled then ops[k - 1].after
    else Serial(files, ops, p, k - 1)
  }

  /** Whether a write to `p` is under way. */
  ghost predicate Writing(ops: seq<Op>, p: Path) {
    exists n :: 0 <= n < |ops| && ops[n].path == p && ops[n].phase == Running && ops[n].kind.Put?
  }

  /** A settled operation did what running the calls one by one in order would have done. */
  predicate Faithful(files: map<Path, seq<Byte>>, ops: seq<Op>, n: nat)
    requires n < |ops|
  {
    match ops[n].kind
    case Get => ops[n].after == Serial(files, ops, ops[n].path, n)
    case Put(buf) => ops[n].ok ==> ops[n].after == Some(buf)
    case Remove => ops[n].ok ==> ops[n].after == None
  }

  ghost predicate FileInv(files: map<Path, seq<Byte>>, s: State) {
    && (forall p :: Writing(s.ops, p) || OnFile(s.files, p) == Serial(files, s.ops, p, |s.ops|))
    && (forall n :: 0 <= n < |s.ops| && s.ops[n].phase == Settled ==> Faithful(files, s.ops, n))
  }

  /** Serial content depends only on the settled operations of the path. */
  lemma {:induction false} SerialFrame(files: map<Path, seq<Byte>>, ops: seq<Op>, ops': seq<Op>, p: Path, k: nat)
    requires k <= |ops| && k <= |ops'|
    requires forall i :: 0 <= i < k ==>
               (ops[i].path == p && ops[i].phase == Settled <==> ops'[i].path == p && ops'[i].phase == Settled)
               && (ops[i].path == p && ops[i].phase == Settled ==> ops[i].after == ops'[i].after)
    ensures Serial(files, ops, p, k) == Serial(files, ops', p, k)
  {
    if k > 0 {
      SerialFrame(files, ops, ops', p, k - 1);
    }
  }

  /** Nothing settled on a path past `n` means its content is what `n` left. */
  lemma {:induction false} SerialUnsettledTail(files: map<Path, seq<Byte>>, ops: seq<Op>, p: Path, n: nat, k: nat)
    requires n <= k <= |ops|
    requires forall i :: n <= i < k ==> !(ops[i].path == p && ops[i].phase == Settled)
    ensures Serial(files, ops, p, k) == Serial(files, ops, p, n)
  {
    if k > n {
      SerialUnsettledTail(files, ops, p, n, k - 1);
    }
  }

  /** Steps that settle nothing and touch no file keep the file books. */
  lemma QuietKeeps(files: map<Path, seq<Byte>>, s: State, s': State)
    requires FileInv(files, s) && s'.files == s.files && |s'.ops| >= |s.ops|
    requires forall i :: 0 <= i < |s.ops| ==>
               s'.ops[i].path == s.ops[i].path && s'.ops[i].kind == s.ops[i].kind && s'.ops[i].ok == s.ops[i].ok
               && s'.ops[i].after == s.ops[i].after
               && (s'.ops[i].phase == Settled <==> s.ops[i].phase == Settled)
               && (s.ops[i].phase == Running ==> s'.ops[i].phase == Running)
    requires forall i :: |s.ops| <= i < |s'.ops| ==> s'.ops[i].phase != Settled
    ensures FileInv(files, s')
  {
    forall p
      ensures Writing(s'.ops, p) || OnFile(s'.files, p) == Serial(files, s'.ops, p, |s'.ops|)
    {
      if Writing(s.ops, p) {
        var n :| 0 <= n < |s.ops| && s.ops[n].path == p && s.ops[n].phase == Running && s.ops[n].kind.Put?;
        assert s'.ops[n].phase == Running;
      } else {
        SerialUnsettledTail(files, s'.ops, p, |s.ops|, |s'.ops|);
        SerialFrame(files, s.ops, s'.ops, p, |s.ops|);
      }
    }
    forall n | 0 <= n < |s'.ops| && s'.ops[n].phase == Settled
      ensures Faithful(files, s'.ops, n)
    {
      assert Faithful(files, s.ops, n);
      SerialFrame(files, s.ops, s'.ops, s.ops[n].path, n);
    }
  }

  lemma TearKeeps(files: map<Path, seq<Byte>>, s: State, n: nat, half: seq<Byte>)
    requires FileInv(files, s) && Enabled(s, Tear(n, half))
    ensures FileInv(files, Step(s, Tear(n, half)))
  {
    assert Writing(s.ops, s.ops[n].path);
  }

  /** The running operation of a path is the only one there, and nothing after it has settled. */
  lemma RunningAlone(s: State, n: nat, i: nat)
    requires ChainInv(s) && n < |s.ops| && s.ops[n].phase == Running
    requires i < |s.ops| && i != n && s.ops[i].path == s.ops[n].path
    ensures s.ops[i].phase == if i < n then Settled else Waiting
  {}

  lemma FinishKeepsFile(files: map<Path, seq<Byte>>, s: State, n: nat, ok: bool, left: Content)
    requires ChainInv(s) && FileInv(files, s) && Enabled(s, Finish(n, ok, left))
    ensures var s' := Step(s, Finish(n, ok, left));
            forall p :: Writing(s'.ops, p) || OnFile(s'.files, p) == Serial(files, s'.ops, p, |s'.ops|)
  {
    var s' := Step(s, Finish(n, ok, left));
    var mine := s.ops[n].path;
    forall p
      ensures Writing(s'.ops, p) || OnFile(s'.files, p) == Serial(files, s'.ops, p, |s'.ops|)
    {
      if p == mine {
        SerialUnsettledTail(files, s'.ops, p, n + 1, |s'.ops|);
      } else if Writing(s.ops, p) {
        var k :| 0 <= k < |s.ops| && s.ops[k].path == p && s.ops[k].phase == Running && s.ops[k].kind.Put?;
        assert s'.ops[k] == s.ops[k];
      } else {
        SerialFrame(files, s.ops, s'.ops, p, |s.ops|);
      }
    }
  }

  /** A read settles with the content the calls before it left. */
  lemma ReadSeesSerial(files: map<Path, seq<Byte>>, s: State, n: nat)
    requires ChainInv(s) && FileInv(files, s) && n < |s.ops| && s.ops[n].phase == Running && s.ops[n].kind.Get?
    ensures OnFile(s.files, s.ops[n].path) == Serial(files, s.ops, s.ops[n].path, n)
  {
    forall i | 0 <= i < |s.ops| && i != n && s.ops[i].path == s.ops[n].path
      ensures s.ops[i].phase == if i < n then Settled else Waiting
    {
      RunningAlone(s, n, i);
    }
    SerialUnsettledTail(files, s.ops, s.ops[n].path, n, |s.ops|);
  }

  lemma FinishKeeps(files: map<Path, seq<Byte>>, s: State, n: nat, ok: bool, left: Content)
    requires ChainInv(s) && FileInv(files, s) && Enabled(s, Finish(n, ok, left))
    ensures FileInv(files, Step(s, Finish(n, ok, left)))
  {
    FinishKeepsFile(files, s, n, ok, left);
    var s' := Step(s, Finish(n, ok, left));
    forall k | 0 <= k < |s'.ops| && s'.ops[k].phase == Settled
      ensures Faithful(files, s'.ops, k)
    {
      if k == n {
        if s.ops[n].kind.Get? {
          ReadSeesSerial(files, s, n);
        }
        SerialFrame(files, s.ops, s'.ops, s.ops[n].path, n);
      } else {
        assert Faithful(files, s.ops, k);
        SerialFrame(files, s.ops, s'.ops, s.ops[k].path, k);
      }
    }
  }

  lemma StepKeeps(files: map<Path, seq<Byte>>, s: State, a: Action)
    requires ChainInv(s) && FileInv(files, s) && Enabled(s, a)
    ensures FileInv(files, Step(s, a))
  {
    match a
    case Call(_, _) => QuietKeeps(files, s, Step(s, a));
    case Begin(_) => QuietKeeps(files, s, Step(s, a));
    case Tear(n, half) => TearKeeps(files, s, n, half);
    case Finish(n, ok, left) => FinishKeeps(files, s, n, ok, left);
    case Cleanup(_) => QuietKeeps(files, s, Step(s, a));
  }

  lemma {:induction false} RunKeeps(files: map<Path, seq<Byte>>, actions: seq<Action>)
    requires Run(files, actions)
    ensures ChainInv(After(files, actions)) && FileInv(files, After(files, actions))
  {
    if actions != [] {
      var init := actions[..|actions| - 1];
      RunKeeps(files, init);
      StepChains(After(files, init), actions[|actions| - 1]);
      StepKeeps(files, After(files, init), actions[|actions| - 1]);
    }
  }

  // --- main results --------------------------------------------------------------

  /** On one path, operations run one at a time and in call order. */
  lemma OneAtATimeInCallOrder(files: map<Path, seq<Byte>>, actions: seq<Action>, a: nat, b: nat)
    requires Run(files, actions)
    requires a < b < |After(files, actions).ops|
    requires After(files, actions).ops[a].path == After(files, actions).ops[b].path
    ensures var ops := After(files, actions).ops;
            ops[b].phase != Waiting ==> ops[a].phase == Settled
  {
    RunKeeps(files, actions);
  }

  /** While anything on a path is unsettled, the map holds that path's last operation. */
  lemma MapHoldsLast(files: map<Path, seq<Byte>>, actions: seq<Action>, a: nat)
    requires Run(files, actions)
    requires a < |After(files, actions).ops| && After(files, actions).ops[a].phase != Settled
    ensures var s := After(files, actions);
            var p := s.ops[a].path;
            p in s.locks && a <= s.locks[p] < |s.ops| && s.ops[s.locks[p]].path == p
            && forall k :: s.locks[p] < k < |s.ops| ==> s.ops[k].path != p
  {
    RunKeeps(files, actions);
  }

  /**
   * A settled read saw exactly what the calls made before it, run one by one,
   * leave in the file: never a half-written piece, never a later write.
   */
  lemma ReadsAreSerial(files: map<Path, seq<Byte>>, actions: seq<Action>, n: nat)
    requires Run(files, actions)
    requires n < |After(files, actions).ops|
    requires After(files, actions).ops[n].kind.Get? && After(files, actions).ops[n].phase == Settled
    ensures var s := After(files, actions);
            s.ops[n].after == Serial(files, s.ops, s.ops[n].path, n)
  {
    RunKeeps(files, actions);
    var s := After(files, actions);
    assert Faithful(files, s.ops, n);
  }

  /** A settled write or removal that succeeded left what it was asked to. */
  lemma WritesTakeEffect(files: map<Path, seq<Byte>>, actions: seq<Action>, n: nat)
    requires Run(files, actions) && n < |After(files, actions).ops|
    requires After(files, actions).ops[n].phase == Settled && After(files, actions).ops[n].ok
    ensures var op := After(files, actions).ops[n];
            (op.kind.Put? ==> op.after == Some(op.kind.buf)) && (op.kind.Remove? ==> op.after == None)
  {
    RunKeeps(files, actions);
    assert Faithful(files, After(files, actions).ops, n);
  }

  /** So a read called after a successful write or removal, and no other since, sees just that. */
  lemma ReadSeesLastWrite(files: map<Path, seq<Byte>>, actions: seq<Action>, w: nat, n: nat)
    requires Run(files, actions) && w < n < |After(files, actions).ops|
    requires var ops := After(files, actions).ops;
             && ops[w].path == ops[n].path && ops[w].ok && ops[w].phase == Settled
             && ops[n].kind.Get? && ops[n].phase == Settled
             && forall k :: w < k < n && ops[k].path == ops[n].path ==> ops[k].kind.Get?
    ensures var ops := After(files, actions).ops;
            && (ops[w].kind.Put? ==> ops[n].after == Some(ops[w].kind.buf))
            && (ops[w].kind.Remove? ==> ops[n].after == None)
  {
    WritesTakeEffect(files, actions, w);
    RunKeeps(files, actions);
    SerialSinceWrite(files, After(files, actions).ops, w, n, n);
    ReadsAreSerial(files, actions, n);
  }

  lemma {:induction false} SerialSinceWrite(files: map<Path, seq<Byte>>, ops: seq<Op>, w: nat, n: nat, k: nat)
    requires w < k <= n < |ops| && ops[w].path == ops[n].path && ops[w].phase == Settled
    requires forall j :: w < j < n && ops[j].path == ops[n].path ==> ops[j].kind.Get?
    requires forall j :: 0 <= j < |ops| && ops[j].phase == Settled ==> Faithful(files, ops, j)
    ensures Serial(files, ops, ops[n].path, k) == ops[w].after
  {
    if k - 1 > w {
      SerialSinceWrite(files, ops, w, n, k - 1);
      if ops[k - 1].path == ops[n].path && ops[k - 1].phase == Settled {
        assert Faithful(files, ops, k - 1);
      }
    }
  }

  /** No chain is stuck: the first unsettled operation of a path is running or can begin. */
  lemma FirstUnsettledCanRun(files: map<Path, seq<Byte>>, actions: seq<Action>, n: nat)
    requires Run(files, actions)
    requires n < |After(files, actions).ops| && After(files, actions).ops[n].phase != Settled
    requires var ops := After(files, actions).ops;
             forall a :: 0 <= a < n && ops[a].path == ops[n].path ==> ops[a].phase == Settled
    ensures var s := After(files, actions);
            s.ops[n].phase == Running || Run(files, actions + [Begin(n)])
  {
    RunKeeps(files, actions);
    var s := After(files, actions);
    assert PrevRight(s.ops, n);
    assert (actions + [Begin(n)])[..|actions|] == actions;
  }
}
