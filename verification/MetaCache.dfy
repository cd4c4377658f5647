/**
 * The torrent metadata cache of src/server/torrents.ts as a state machine:
 * requests stat the file, resume later, and share or start a build; builds
 * settle and failed ones are evicted by their own handler, all interleaved
 * with changes to the files.
 */
module MetaCache {
  import opened Bytes

  type Path = string

  /** A file's `size:mtime`. */
  type Key = string

  datatype BuildPhase = Building | Built | Failed

  datatype Build = Build(path: Path, key: Key, phase: BuildPhase, handled: bool)

  datatype Request = Request(path: Path, seen: Option<Key>, build: Option<nat>)

  datatype State = State(files: map<Path, Key>, cache: map<Path, nat>, builds: seq<Build>, requests: seq<Request>)

  datatype Action =
    | Change(path: Path, key: Option<Key>)  // a file is written, or goes away
    | Ask(path: Path)
    | Stat(r: nat)
    | Resume(r: nat)
    | Settle(b: nat, ok: bool)
    | HandleFailure(b: nat)                  // the build's own catch handler

  predicate Enabled(s: State, a: Action) {
    match a
    case Change(_, _) => true
    case Ask(_) => true
    case Stat(r) => r < |s.requests| && s.requests[r].seen.None? && s.requests[r].path in s.files
    case Resume(r) => r < |s.requests| && s.requests[r].seen.Some? && s.requests[r].build.None?
    case Settle(b, _) => b < |s.builds| && s.builds[b].phase == Building
    case HandleFailure(b) => b < |s.builds| && s.builds[b].phase == Failed && !s.builds[b].handled
  }

  /** The cached build a request with this key may share. */
  function Cached(s: State, path: Path, key: Key): Option<nat> {
    if path in s.cache && s.cache[path] < |s.builds| && s.builds[s.cache[path]].key == key
    then Some(s.cache[path]) else None
  }

  function Step(s: State, a: Action): State
    requires Enabled(s, a)
  {
    match a
    case Change(p, key) => s.(files := if key.Some? then s.files[p := key.value] else s.files - {p})
    case Ask(p) => s.(requests := s.requests + [Request(p, None, None)])
    case Stat(r) =>
      var req := s.requests[r];
      s.(requests := s.requests[r := req.(seen := Some(s.files[req.path]))])
    case Resume(r) =>
      var req := s.requests[r];
      (match Cached(s, req.path, req.seen.value)
       case Some(b) => s.(requests := s.requests[r := req.(build := Some(b))])
       case None =>
         s.(builds := s.builds + [Build(req.path, req.seen.value, Building, false)],
            cache := s.cache[req.path := |s.builds|],
            requests := s.requests[r := req.(build := Some(|s.builds|))]))
    case Settle(b, ok) => s.(builds := s.builds[b := s.builds[b].(phase := if ok then Built else Failed)])
    case HandleFailure(b) =>
      var build := s.builds[b];
      s.(builds := s.builds[b := build.(handled := true)],
         cache := if build.path in s.cache && s.cache[build.path] == b then s.cache - {build.path} else s.cache)
  }

  predicate Run(files: map<Path, Key>, actions: seq<Action>) {
    actions == []
    || (Run(files, actions[..|actions| - 1])
        && Enabled(After(files, actions[..|actions| - 1]), actions[|actions| - 1]))
  }

  function After(files: map<Path, Key>, actions: seq<Action>): State {
    if actions == [] then State(files, map[], [], [])
    else
      var s := After(files, actions[..|actions| - 1]);
      var a := actions[|actions| - 1];
      if Enabled(s, a) then Step(s, a) else s
  }

  ghost predicate Inv(s: State) {
    && (forall p :: p in s.cache ==> s.cache[p] < |s.builds| && s.builds[s.cache[p]].path == p)
    && (forall p :: p in s.cache ==> !s.builds[s.cache[p]].handled)
    && (forall r :: 0 <= r < |s.requests| && s.requests[r].build.Some? ==>
          s.requests[r].build.value < |s.builds|
          && s.builds[s.requests[r].build.value].path == s.requests[r].path
          && s.requests[r].seen == Some(s.builds[s.requests[r].build.value].key))
    && (forall b :: 0 <= b < |s.builds| && s.builds[b].handled ==> s.builds[b].phase == Failed)
    && (forall b :: 0 <= b < |s.builds| && s.builds[b].path !in s.cache ==> s.builds[b].handled || Replaced(s, b))
    && (forall b :: 0 <= b < |s.builds| && s.builds[b].path in s.cache ==> b <= s.cache[s.builds[b].path])
  }

  /** A newer build of the same path was started after `b`. */
  ghost predicate Replaced(s: State, b: nat)
    requires b < |s.builds|
  {
    exists c :: b < c < |s.builds| && s.builds[c].path == s.builds[b].path
  }

  lemma ResumeKeeps(s: State, r: nat)
    requires Inv(s) && Enabled(s, Resume(r))
    ensures Inv(Step(s, Resume(r)))
  {
    var s' := Step(s, Resume(r));
    forall b | 0 <= b < |s'.builds| && s'.builds[b].path !in s'.cache
      ensures s'.builds[b].handled || Replaced(s', b)
    {
      if !s.builds[b].handled {
        var c :| b < c < |s.builds| && s.builds[c].path == s.builds[b].path;
        assert s'.builds[c].path == s'.builds[b].path;
      }
    }
  }

  lemma SettleKeeps(s: State, b: nat, ok: bool)
    requires Inv(s) && Enabled(s, Settle(b, ok))
    ensures Inv(Step(s, Settle(b, ok)))
  {
    var s' := Step(s, Settle(b, ok));
    forall k | 0 <= k < |s'.builds| && s'.builds[k].path !in s'.cache
      ensures s'.builds[k].handled || Replaced(s', k)
    {
      if !s.builds[k].handled {
        var c :| k < c < |s.builds| && s.builds[c].path == s.builds[k].path;
        assert s'.builds[c].path == s'.builds[k].path;
      }
    }
  }

  /** Which builds have been replaced depends on the builds' paths alone. */
  lemma SameReplaced(s: State, s': State, b: nat)
    requires b < |s.builds| <= |s'.builds|
    requires forall c :: 0 <= c < |s.builds| ==> s'.builds[c].path == s.builds[c].path
    ensures Replaced(s, b) ==> Replaced(s', b)
  {
    if Replaced(s, b) {
      var c :| b < c < |s.builds| && s.builds[c].path == s.builds[b].path;
      assert s'.builds[c].path == s'.builds[b].path;
    }
  }

  lemma HandleKeeps(s: State, b: nat)
    requires Inv(s) && Enabled(s, HandleFailure(b))
    ensures Inv(Step(s, HandleFailure(b)))
  {
    var s' := Step(s, HandleFailure(b));
    assert forall c :: 0 <= c < |s.builds| && c != b ==> s'.builds[c] == s.builds[c];
    forall k | 0 <= k < |s'.builds| && s'.builds[k].path !in s'.cache
      ensures s'.builds[k].handled || Replaced(s', k)
    {
      SameReplaced(s, s', k);
      if k != b && s.builds[k].path in s.cache {
        assert s'.builds[b].path == s'.builds[k].path && k < b;
      }
    }
  }

  lemma QuietKeeps(s: State, s': State)
    requires Inv(s) && s'.cache == s.cache && s'.builds == s.builds && |s'.requests| >= |s.requests|
    requires forall r :: 0 <= r < |s'.requests| && s'.requests[r].build.Some? ==>
               r < |s.requests| && s'.requests[r] == s.requests[r]
    ensures Inv(s')
  {
    forall b | 0 <= b < |s'.builds| && s'.builds[b].path !in s'.cache
      ensures s'.builds[b].handled || Replaced(s', b)
    {
      if !s.builds[b].handled {
        var c :| b < c < |s.builds| && s.builds[c].path == s.builds[b].path;
        assert s'.builds[c].path == s'.builds[b].path;
      }
    }
  }

  lemma StepKeeps(s: State, a: Action)
    requires Inv(s) && Enabled(s, a)
    ensures Inv(Step(s, a))
  {
    match a
    case Change(_, _) => QuietKeeps(s, Step(s, a));
    case Ask(_) => QuietKeeps(s, Step(s, a));
    case Stat(r) =>
      assert s.requests[r].build.None?;
      QuietKeeps(s, Step(s, a));
    case Resume(r) => ResumeKeeps(s, r);
    case Settle(b, ok) => SettleKeeps(s, b, ok);
    case HandleFailure(b) => HandleKeeps(s, b);
  }

  lemma {:induction false} RunKeeps(files: map<Path, Key>, actions: seq<Action>)
    requires Run(files, actions)
    ensures Inv(After(files, actions))
  {
    if actions != [] {
      var init := actions[..|actions| - 1];
      RunKeeps(files, init);
      StepKeeps(After(files, init), actions[|actions| - 1]);
    }
  }

  // --- main results --------------------------------------------------------------

  /** Every answered request got a build of its file for the very key its own stat saw. */
  lemma RequestGetsItsVersion(files: map<Path, Key>, actions: seq<Action>, r: nat)
    requires Run(files, actions) && r < |After(files, actions).requests|
    requires After(files, actions).requests[r].build.Some?
    ensures var s := After(files, actions);
            var req := s.requests[r];
            req.build.value < |s.builds|
            && s.builds[req.build.value].path == req.path
            && req.seen == Some(s.builds[req.build.value].key)
  {
    RunKeeps(files, actions);
  }

  /**
   * A build is cached exactly while it is its path's newest and no failure of
   * it has been handled.
   */
  lemma CachedExactly(files: map<Path, Key>, actions: seq<Action>, b: nat)
    requires Run(files, actions) && b < |After(files, actions).builds|
    ensures var s := After(files, actions);
            var p := s.builds[b].path;
            && (p in s.cache && s.cache[p] == b <==> !s.builds[b].handled && !Replaced(s, b))
            && (s.builds[b].handled ==> s.builds[b].phase == Failed)
  {
    RunKeeps(files, actions);
    var s := After(files, actions);
    var p := s.builds[b].path;
    if p in s.cache && s.cache[p] != b {
      assert Replaced(s, b);
    }
  }

  /** A late failure of a replaced build leaves the cache alone. */
  lemma LateFailureHarmless(files: map<Path, Key>, actions: seq<Action>, b: nat)
    requires Run(files, actions) && Enabled(After(files, actions), HandleFailure(b))
    requires Replaced(After(files, actions), b)
    ensures Step(After(files, actions), HandleFailure(b)).cache == After(files, actions).cache
  {
    CachedExactly(files, actions, b);
  }

  /** While a file's newest build has not failed, a request that saw its key shares it: nothing is built twice. */
  lemma SameKeyShares(files: map<Path, Key>, actions: seq<Action>, r: nat, b: nat)
    requires Run(files, actions) && Enabled(After(files, actions), Resume(r))
    requires var s := After(files, actions);
             b < |s.builds| && s.builds[b].path == s.requests[r].path
             && s.requests[r].seen == Some(s.builds[b].key)
             && s.builds[b].phase != Failed && !Replaced(s, b)
    ensures var s, s' := After(files, actions), Step(After(files, actions), Resume(r));
            s'.builds == s.builds && s'.requests[r].build == Some(b)
  {
    CachedExactly(files, actions, b);
  }

  /**
   * A request that has seen a key is answered when it resumes: with its
   * path's newest build, if that is for the key and its failure, if any, has not
   * been handled; and else with a new build for the key.
   */
  lemma ResumeExactly(files: map<Path, Key>, actions: seq<Action>, r: nat)
    requires Run(files, actions) && Enabled(After(files, actions), Resume(r))
    ensures var s, s' := After(files, actions), Step(After(files, actions), Resume(r));
            var req := s.requests[r];
            && (forall b: nat :: b < |s.builds| && s.builds[b].path == req.path && req.seen == Some(s.builds[b].key)
                                 && !s.builds[b].handled && !Replaced(s, b)
                  ==> s'.builds == s.builds && s'.requests[r].build == Some(b))
            && ((forall b: nat :: b < |s.builds| && s.builds[b].path == req.path && req.seen == Some(s.builds[b].key)
                                  ==> s.builds[b].handled || Replaced(s, b))
                  ==> s'.builds == s.builds + [Build(req.path, req.seen.value, Building, false)]
                      && s'.requests[r].build == Some(|s.builds|))
  {
    RunKeeps(files, actions);
    var s := After(files, actions);
    forall b: nat | b < |s.builds|
      ensures var p := s.builds[b].path;
              p in s.cache && s.cache[p] == b <==> !s.builds[b].handled && !Replaced(s, b)
    {
      CachedExactly(files, actions, b);
    }
  }
}
