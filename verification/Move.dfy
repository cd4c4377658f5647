/** Moving, deleting and creating entries, src/server/browse.ts. */
module Move {
  import opened Bytes
  import opened Paths
  import opened FileTree

  function Without(t: Tree, p: Path): Tree {
    map q | q in t && !(p <= q) :: t[q]
  }

  /** Where `q` comes from when the subtree at `from` is put at `to`. */
  function Origin(from: Path, to: Path, q: Path): Path
    requires to <= q
  {
    from + q[|to|..]
  }

  function Placed(from: Path, to: Path, p: Path): Path
    requires from <= p
  {
    to + p[|from|..]
  }

  lemma OriginPlaced(from: Path, to: Path, p: Path)
    requires from <= p
    ensures to <= Placed(from, to, p) && Origin(from, to, Placed(from, to, p)) == p
  {
    assert Placed(from, to, p)[|to|..] == p[|from|..];
    assert from + p[|from|..] == p;
  }

  lemma PlacedOrigin(from: Path, to: Path, q: Path)
    requires to <= q
    ensures from <= Origin(from, to, q) && Placed(from, to, Origin(from, to, q)) == q
  {
    OriginPlaced(to, from, q);
  }

  /** The subtree at `from`, as it looks standing at `to`. */
  function Subtree(t: Tree, from: Path, to: Path): (r: Tree)
    ensures forall q :: q in r <==> to <= q && Origin(from, to, q) in t
    ensures forall q :: q in r ==> r[q] == t[Origin(from, to, q)]
  {
    var keys := set p | p in t && from <= p :: Placed(from, to, p);
    assert forall q :: q in keys ==> to <= q && Origin(from, to, q) in t by {
      forall p | p in t && from <= p
        ensures to <= Placed(from, to, p) && Origin(from, to, Placed(from, to, p)) == p
      {
        OriginPlaced(from, to, p);
      }
    }
    assert forall q :: to <= q && Origin(from, to, q) in t ==> q in keys by {
      forall q | to <= q && Origin(from, to, q) in t
        ensures q in keys
      {
        PlacedOrigin(from, to, q);
      }
    }
    map q | q in keys :: t[Origin(from, to, q)]
  }

  /** The old tree with exactly the subtree at `from` standing at `to` instead. */
  function Relocated(t: Tree, from: Path, to: Path): Tree {
    Without(t, from) + Subtree(t, from, to)
  }

  function Lookup(t: Tree, p: Path): Option<Node> {
    if p in t then Some(t[p]) else None
  }

  /** A name free in a well-formed tree has nothing below it either. */
  lemma {:induction false} FreeBelow(t: Tree, to: Path, q: Path)
    requires WellFormed(t) && to !in t && to <= q
    ensures q !in t
    decreases |q|
  {
    if q != to {
      assert to <= Parent(q);
      FreeBelow(t, to, Parent(q));
    }
  }

  /** Point by point: the moved entries, the vacated ones, and everything else as it was. */
  lemma RelocatedExactly(t: Tree, from: Path, to: Path, q: Path)
    requires WellFormed(t) && to !in t && !(from <= to)
    ensures Lookup(Relocated(t, from, to), q)
         == if to <= q then Lookup(t, Origin(from, to, q)) else if from <= q then None else Lookup(t, q)
  {
    if to <= q {
      FreeBelow(t, to, q);
    }
  }

  lemma RelocatedWellFormed(t: Tree, from: Path, to: Path)
    requires WellFormed(t) && from in t && from != [] && to !in t && !(from <= to)
    requires to != [] && Normal(to) && Parent(to) in t && t[Parent(to)] == Dir
    ensures WellFormed(Relocated(t, from, to))
  {
    var t' := Relocated(t, from, to);
    forall q
      ensures Lookup(t', q)
           == if to <= q then Lookup(t, Origin(from, to, q)) else if from <= q then None else Lookup(t, q)
    {
      RelocatedExactly(t, from, to, q);
    }
    assert Lookup(t', []) == Lookup(t, []);
    forall q | q in t' && q != []
      ensures Parent(q) in t' && t'[Parent(q)] == Dir
    {
      RelocatedParent(t, from, to, q);
    }
    forall q | q in t'
      ensures Normal(q) && (t'[q].Link? ==> Normal(t'[q].target))
    {
      assert Lookup(t', q) != None;
      if to <= q {
        assert q == to + q[|to|..];
        assert forall c :: c in q[|to|..] ==> c in Origin(from, to, q);
      }
    }
  }

  lemma RelocatedParent(t: Tree, from: Path, to: Path, q: Path)
    requires WellFormed(t) && from in t && from != [] && to !in t && !(from <= to)
    requires to != [] && Parent(to) in t && t[Parent(to)] == Dir
    requires q in Relocated(t, from, to) && q != []
    ensures Lookup(Relocated(t, from, to), Parent(q)) == Some(Dir)
  {
    RelocatedExactly(t, from, to, q);
    RelocatedExactly(t, from, to, Parent(q));
    if q == to {
      ParentOutside(from, to);
    } else if to <= q {
      MovedParent(t, from, to, q);
    } else {
      StaysOutside(from, to, q);
    }
  }

  lemma ParentOutside(from: Path, to: Path)
    requires to != [] && !(from <= to)
    ensures !(to <= Parent(to)) && !(from <= Parent(to))
  {
    assert to == Parent(to) + [to[|to| - 1]];
  }

  lemma StaysOutside(from: Path, to: Path, q: Path)
    requires q != [] && !(from <= q) && !(to <= q)
    ensures !(from <= Parent(q)) && !(to <= Parent(q))
  {
    assert q == Parent(q) + [q[|q| - 1]];
  }

  lemma MovedParent(t: Tree, from: Path, to: Path, q: Path)
    requires WellFormed(t) && from != [] && to != [] && to <= q && q != to && Origin(from, to, q) in t
    ensures to <= Parent(q) && Origin(from, to, Parent(q)) in t && t[Origin(from, to, Parent(q))] == Dir
  {
    var o := Origin(from, to, q);
    assert Parent(q)[|to|..] == q[|to|..][..|q| - |to| - 1];
    assert Parent(o) == Origin(from, to, Parent(q));
  }

  /** Moving an entry and moving it back restores the tree. */
  lemma MoveBack(t: Tree, from: Path, to: Path)
    requires WellFormed(t) && from in t && from != [] && to !in t && !(from <= to)
    requires to != [] && Normal(to) && Parent(to) in t && t[Parent(to)] == Dir
    ensures Relocated(Relocated(t, from, to), to, from) == t
  {
    var t2 := Relocated(Relocated(t, from, to), to, from);
    forall q
      ensures Lookup(t2, q) == Lookup(t, q)
    {
      MoveBackAt(t, from, to, q);
    }
    SameTree(t2, t);
  }

  lemma MoveBackAt(t: Tree, from: Path, to: Path, q: Path)
    requires WellFormed(t) && from in t && from != [] && to !in t && !(from <= to)
    requires to != [] && Normal(to) && Parent(to) in t && t[Parent(to)] == Dir
    ensures Lookup(Relocated(Relocated(t, from, to), to, from), q) == Lookup(t, q)
  {
    RelocatedWellFormed(t, from, to);
    RelocatedExactly(t, from, to, from);
    NotInside(t, to, from);
    RelocatedExactly(Relocated(t, from, to), to, from, q);
    if from <= q {
      PlacedOrigin(to, from, q);
      RelocatedExactly(t, from, to, Origin(to, from, q));
    } else {
      RelocatedExactly(t, from, to, q);
      if to <= q {
        FreeBelow(t, to, q);
      }
    }
  }

  /** An entry is not below a free name. */
  lemma NotInside(t: Tree, to: Path, p: Path)
    requires WellFormed(t) && to !in t && p in t
    ensures !(to <= p)
  {
    if to <= p {
      FreeBelow(t, to, p);
    }
  }

  lemma SameTree(t: Tree, t': Tree)
    requires forall q :: Lookup(t, q) == Lookup(t', q)
    ensures t == t'
  {
    forall q
      ensures q in t <==> q in t'
      ensures q in t ==> t[q] == t'[q]
    {
      assert Lookup(t, q) == Lookup(t', q);
    }
  }

  // --- what the disk does --------------------------------------------------------

  /** A removal that fails: the entries it got to, and why. It removes what is below an entry before the entry. */
  datatype RemoveFailure = RemoveFailure(reached: set<Path>, error: FsError)

  /** A copy that fails: the entries it got to, what it wrote of unfinished files, and why. Folders come first. */
  datatype CopyFailure = CopyFailure(reached: set<Path>, cut: map<Path, seq<Byte>>, error: FsError)

  /**
   * How the steps of a move go: the rename may be refused, because the two
   * places are on different devices or for any other reason, and each step of
   * the fallback may fail, the cleanup of a partial copy included.
   */
  datatype Weather = Weather(
    renameFails: Option<FsError>,
    copyFails: Option<CopyFailure>,
    cleanupFails: Option<RemoveFailure>,
    removeFails: Option<RemoveFailure>
  ) {
    predicate AcrossDevices() {
      renameFails == Some(CrossDevice)
    }

    /** All the steps taken succeed. */
    predicate Fair() {
      renameFails.None? || (AcrossDevices() && copyFails.None? && removeFails.None?)
    }
  }

  /** What a failed removal of `p` leaves. */
  function PartlyRemoved(t: Tree, p: Path, reached: set<Path>): Tree {
    map q | q in t && !(p <= q && forall d | d in t :: q <= d ==> d in reached) :: t[q]
  }

  /** `q` and the folders it is in, down to the one of length `n`, are in `reached`. */
  predicate AllReached(reached: set<Path>, n: nat, q: Path)
    requires n <= |q|
    decreases |q|
  {
    q in reached && (|q| == n || AllReached(reached, n, Parent(q)))
  }

  /** What a failed copy from `from` to `to` leaves at `to`. */
  function PartlyCopied(t: Tree, from: Path, to: Path, f: CopyFailure): Tree {
    var copy := Subtree(t, from, to);
    map q | q in copy && AllReached(f.reached, |to|, q) ::
      if copy[q].File? && q in f.cut then File(f.cut[q]) else copy[q]
  }

  /** What a removal of `p` leaves. */
  function AfterRemoval(t: Tree, p: Path, fails: Option<RemoveFailure>): Tree {
    if fails.Some? then PartlyRemoved(t, p, fails.value.reached) else Without(t, p)
  }

  /** Entries go with everything below them, so what a removal leaves is still a tree. */
  lemma RemovalWellFormed(t: Tree, p: Path, fails: Option<RemoveFailure>)
    requires WellFormed(t) && p != []
    ensures WellFormed(AfterRemoval(t, p, fails))
  {
    var t' := AfterRemoval(t, p, fails);
    forall q | q in t && q != []
      ensures Parent(q) <= q && (p <= Parent(q) ==> p <= q)
      ensures q in t' ==> Parent(q) in t'
    {}
  }

  /** A copy in whatever stage, put at a free name in a folder, leaves a tree. */
  lemma GraftWellFormed(t: Tree, from: Path, to: Path, part: Tree)
    requires WellFormed(t) && from in t && from != [] && to !in t
    requires to != [] && Normal(to) && Parent(to) in t && t[Parent(to)] == Dir
    requires forall q :: q in part ==> q in Subtree(t, from, to)
    requires forall q :: q in part ==> part[q] == Subtree(t, from, to)[q] || (part[q].File? && Subtree(t, from, to)[q].File?)
    requires forall q :: q in part && q != to ==> q != [] && Parent(q) in part
    ensures WellFormed(t + part)
  {
    var t' := t + part;
    forall q | q in part
      ensures q !in t && to <= q
    {
      FreeBelow(t, to, q);
    }
    forall q | q in t' && q != []
      ensures Parent(q) in t' && t'[Parent(q)] == Dir
    {
      if q in part {
        GraftedParent(t, from, to, part, q);
      }
    }
    forall q | q in part
      ensures Normal(q) && (part[q].Link? ==> Normal(part[q].target))
    {
      assert q == to + q[|to|..];
      assert forall c :: c in q[|to|..] ==> c in Origin(from, to, q);
    }
  }

  lemma GraftedParent(t: Tree, from: Path, to: Path, part: Tree, q: Path)
    requires WellFormed(t) && from in t && from != [] && to !in t && to != []
    requires Parent(to) in t && t[Parent(to)] == Dir
    requires forall q :: q in part ==> q in Subtree(t, from, to) && q !in t
    requires forall q :: q in part ==> part[q] == Subtree(t, from, to)[q] || (part[q].File? && Subtree(t, from, to)[q].File?)
    requires forall q :: q in part && q != to ==> q != [] && Parent(q) in part
    requires q in part
    ensures q != [] && Lookup(t + part, Parent(q)) == Some(Dir)
  {
    if q != to {
      MovedParent(t, from, to, q);
    }
  }

  lemma CopiedWellFormed(t: Tree, from: Path, to: Path)
    requires WellFormed(t) && from in t && from != [] && to !in t
    requires to != [] && Normal(to) && Parent(to) in t && t[Parent(to)] == Dir
    ensures WellFormed(t + Subtree(t, from, to))
  {
    forall q | q in Subtree(t, from, to) && q != to
      ensures q != [] && Parent(q) in Subtree(t, from, to)
    {
      MovedParent(t, from, to, q);
    }
    GraftWellFormed(t, from, to, Subtree(t, from, to));
  }

  lemma PartlyCopiedWellFormed(t: Tree, from: Path, to: Path, f: CopyFailure)
    requires WellFormed(t) && from in t && from != [] && to !in t
    requires to != [] && Normal(to) && Parent(to) in t && t[Parent(to)] == Dir
    ensures WellFormed(t + PartlyCopied(t, from, to, f))
  {
    var part := PartlyCopied(t, from, to, f);
    forall q | q in part && q != to
      ensures q != [] && Parent(q) in part
    {
      MovedParent(t, from, to, q);
    }
    GraftWellFormed(t, from, to, part);
  }

  // --- the code ------------------------------------------------------------------

  /** Permission errors become 403; anything else is passed on. */
  function Thrown(e: FsError): (r: Refused)
    ensures e == Denied <==> r == Forbidden
    ensures e != Denied <==> r == Internal
  {
    if e == Denied then Forbidden else Internal
  }

  /** What a move that does not succeed answers. */
  function Answered(from: Path, to: Path, w: Weather): Refused
    requires from <= to || !w.Fair()
  {
    if !w.AcrossDevices() then Thrown(if from <= to then Invalid else w.renameFails.value)
    else if from <= to || w.copyFails.Some? then
      // An error of the cleanup itself is passed on as it is.
      if w.cleanupFails.Some? then Internal else Thrown(if from <= to then Invalid else w.copyFails.value.error)
    else Thrown(w.removeFails.value.error)
  }

  /** Everything is as it was but for a part of the copy at `to`. */
  ghost predicate Leftover(t: Tree, t': Tree, from: Path, to: Path) {
    Without(t', to) == t && forall q :: q in t' && to <= q ==> q in Subtree(t, from, to)
  }

  /** The copy is whole, and otherwise nothing has changed but that some of the source is gone. */
  ghost predicate CopySafe(t: Tree, t': Tree, from: Path, to: Path) {
    && (forall q :: q in Subtree(t, from, to) ==> Lookup(t', q) == Some(Subtree(t, from, to)[q]))
    && OnlyLess(t + Subtree(t, from, to), t', from)
  }

  /** What the checks before any change decide: refuse, or move from one place to the other. */
  function Plan(t: Tree, fromRoot: Path, fromRel: string, toRoot: Path, toRel: string, followSymlinks: bool):
      Result<(Path, Path), Refused>
  {
    match ResolveEntry(t, fromRoot, fromRel, followSymlinks)
    case Err(e) => Err(e)
    case Ok(from) =>
      if from == fromRoot then Err(BadRequest)
      else
        match ResolveNew(t, toRoot, toRel, followSymlinks)
        case Err(e) => Err(e)
        case Ok(to) =>
          if fromRoot == toRoot && IsInside(Render(from), Render(to)) then Err(BadRequest)
          else if to in t then Err(Conflict)
          else Ok((from, to))
  }

  /** The request names the entry `from` and the free place `to`, not the root and not inside itself in one share. */
  ghost predicate Planned(t: Tree, fromRoot: Path, fromRel: string, toRoot: Path, toRel: string, followSymlinks: bool,
                          from: Path, to: Path)
  {
    && EntryAt(t, fromRoot, fromRel, followSymlinks, from) && from != fromRoot
    && NewAt(t, toRoot, toRel, followSymlinks, to)
    && !(fromRoot == toRoot && from <= to) && to !in t
  }

  /** A move gets past the checks exactly with the places the request names; taken and nested ones are told apart. */
  lemma PlanExactly(t: Tree, fromRoot: Path, fromRel: string, toRoot: Path, toRel: string, followSymlinks: bool,
                    from: Path, to: Path)
    requires WellFormed(t) && Normal(fromRoot) && Normal(toRoot)
    ensures Plan(t, fromRoot, fromRel, toRoot, toRel, followSymlinks) == Ok((from, to))
            <==> Planned(t, fromRoot, fromRel, toRoot, toRel, followSymlinks, from, to)
    ensures EntryAt(t, fromRoot, fromRel, followSymlinks, from) && from != fromRoot
            && NewAt(t, toRoot, toRel, followSymlinks, to)
            ==> Plan(t, fromRoot, fromRel, toRoot, toRel, followSymlinks)
                == if fromRoot == toRoot && from <= to then Err(BadRequest)
                   else if to in t then Err(Conflict) else Ok((from, to))
  {
    ResolveEntryExactly(t, fromRoot, fromRel, followSymlinks, from);
    ResolveNewExactly(t, toRoot, toRel, followSymlinks, to);
    if ResolveEntry(t, fromRoot, fromRel, followSymlinks) == Ok(from) && from != fromRoot
       && ResolveNew(t, toRoot, toRel, followSymlinks) == Ok(to) {
      EntryInside(t, fromRoot, fromRel, followSymlinks);
      NewInside(t, toRoot, toRel, followSymlinks);
      NotTheTop(fromRoot, from);
      IsInsideExactly(from, to);
    }
  }

  lemma NotTheTop(root: Path, p: Path)
    requires root <= p && p != root
    ensures p != []
  {}

  class FileSystem {
    var tree: Tree

    ghost predicate Valid()
      reads this
    {
      WellFormed(tree)
    }

    constructor ()
      ensures Valid()
    {
      tree := map[[] := Dir];
    }

    /** `fs.rename` to a free name: refused across devices and into the source's own subtree. */
    method Rename(from: Path, to: Path, fails: Option<FsError>) returns (r: Result<(), FsError>)
      modifies this
      ensures r == if fails == Some(CrossDevice) then Err(CrossDevice)
                   else if from <= to then Err(Invalid)
                   else if fails.Some? then Err(fails.value) else Ok(())
      ensures tree == if r.Ok? then Relocated(old(tree), from, to) else old(tree)
    {
      if fails == Some(CrossDevice) {
        return Err(CrossDevice);
      }
      if from <= to {
        return Err(Invalid);
      }
      if fails.Some? {
        return Err(fails.value);
      }
      tree := Relocated(tree, from, to);
      r := Ok(());
    }

    /** `fs.cp` of a subtree; one that fails leaves some part of the copy behind. */
    method Copy(from: Path, to: Path, fails: Option<CopyFailure>) returns (r: Result<(), FsError>)
      modifies this
      ensures r == if from <= to then Err(Invalid) else if fails.Some? then Err(fails.value.error) else Ok(())
      ensures tree == if r.Ok? then old(tree) + Subtree(old(tree), from, to)
                      else if from <= to then old(tree)
                      else old(tree) + PartlyCopied(old(tree), from, to, fails.value)
    {
      if from <= to {
        return Err(Invalid);
      }
      if fails.Some? {
        tree := tree + PartlyCopied(tree, from, to, fails.value);
        return Err(fails.value.error);
      }
      tree := tree + Subtree(tree, from, to);
      r := Ok(());
    }

    /** `fs.rm` of a subtree; one that fails has removed some of it. */
    method Remove(p: Path, fails: Option<RemoveFailure>) returns (r: Result<(), FsError>)
      modifies this
      ensures r == if fails.Some? then Err(fails.value.error) else Ok(())
      ensures tree == AfterRemoval(old(tree), p, fails)
    {
      if fails.Some? {
        tree := PartlyRemoved(tree, p, fails.value.reached);
        return Err(fails.value.error);
      }
      tree := Without(tree, p);
      r := Ok(());
    }

    /**
     * A successful move leaves the old tree with exactly that subtree
     * relocated, on one device or across two. Any refusal, any failed rename
     * and any failed copy that could be cleaned up leave the tree as it was.
     * A failed cleanup leaves part of the copy and nothing else; a failed
     * removal after a complete copy leaves the copy whole and touches nothing
     * outside the source. What is left is a tree in every case.
     */
    method MoveEntry(fromRoot: Path, fromRel: string, toRoot: Path, toRel: string, followSymlinks: bool, w: Weather)
      returns (r: Result<(Path, Path), Refused>)
      requires Valid() && Normal(fromRoot) && Normal(toRoot)
      modifies this
      ensures Valid()
      ensures Plan(old(tree), fromRoot, fromRel, toRoot, toRel, followSymlinks).Err? ==>
                r == Plan(old(tree), fromRoot, fromRel, toRoot, toRel, followSymlinks) && tree == old(tree)
      ensures r.Ok? ==>
                r == Plan(old(tree), fromRoot, fromRel, toRoot, toRel, followSymlinks)
                && tree == Relocated(old(tree), r.value.0, r.value.1)
                && fromRoot < r.value.0 && toRoot < r.value.1
      ensures Plan(old(tree), fromRoot, fromRel, toRoot, toRel, followSymlinks).Ok? ==>
                var (from, to) := Plan(old(tree), fromRoot, fromRel, toRoot, toRel, followSymlinks).value;
                && (r.Ok? <==> !(from <= to) && w.Fair())
                && (r.Err? ==> r.error == Answered(from, to, w) && FailedMove(old(tree), tree, from, to, w))
      ensures forall from, to ::
                Plan(old(tree), fromRoot, fromRel, toRoot, toRel, followSymlinks) == Ok((from, to))
                <==> Planned(old(tree), fromRoot, fromRel, toRoot, toRel, followSymlinks, from, to)
    {
      ghost var t0 := tree;
      forall from, to
        ensures Plan(t0, fromRoot, fromRel, toRoot, toRel, followSymlinks) == Ok((from, to))
                <==> Planned(t0, fromRoot, fromRel, toRoot, toRel, followSymlinks, from, to)
      {
        PlanExactly(t0, fromRoot, fromRel, toRoot, toRel, followSymlinks, from, to);
      }
      var fromR := ResolveEntry(tree, fromRoot, fromRel, followSymlinks);
      if fromR.Err? {
        return Err(fromR.error);
      }
      var from := fromR.value;
      if from == fromRoot {
        return Err(BadRequest);
      }
      var toR := ResolveNew(tree, toRoot, toRel, followSymlinks);
      if toR.Err? {
        return Err(toR.error);
      }
      var to := toR.value;
      if fromRoot == toRoot && IsInside(Render(from), Render(to)) {
        return Err(BadRequest);
      }
      if to in tree {
        return Err(Conflict);
      }
      EntryInside(tree, fromRoot, fromRel, followSymlinks);
      NewInside(tree, toRoot, toRel, followSymlinks);
      var done := Transfer(from, to, w);
      if done.Err? {
        return Err(done.error);
      }
      r := Ok((from, to));
    }

    /** Rename, or copy and remove when the two places are on different devices. */
    method Transfer(from: Path, to: Path, w: Weather) returns (r: Result<(), Refused>)
      requires Valid() && from in tree && from != [] && to !in tree
      requires to != [] && Normal(to) && Parent(to) in tree && tree[Parent(to)] == Dir
      modifies this
      ensures Valid()
      ensures r.Ok? <==> !(from <= to) && w.Fair()
      ensures r.Ok? ==> tree == Relocated(old(tree), from, to)
      ensures r.Err? ==> r.error == Answered(from, to, w) && FailedMove(old(tree), tree, from, to, w)
    {
      ghost var t0 := tree;
      var done := Rename(from, to, w.renameFails);
      if done.Ok? {
        RelocatedWellFormed(t0, from, to);
        return Ok(());
      }
      if done.error != CrossDevice {
        return Err(Thrown(done.error));
      }
      r := CopyAndRemove(from, to, w);
    }

    /** The fallback: the copy, its cleanup if it fails, and the removal of the source if it does not. */
    method CopyAndRemove(from: Path, to: Path, w: Weather) returns (r: Result<(), Refused>)
      requires Valid() && from in tree && from != [] && to !in tree && w.AcrossDevices()
      requires to != [] && Normal(to) && Parent(to) in tree && tree[Parent(to)] == Dir
      modifies this
      ensures Valid()
      ensures r.Ok? <==> !(from <= to) && w.copyFails.None? && w.removeFails.None?
      ensures r.Ok? ==> tree == Relocated(old(tree), from, to)
      ensures r.Err? ==> r.error == Answered(from, to, w) && FailedMove(old(tree), tree, from, to, w)
    {
      ghost var t0 := tree;
      var copied := Copy(from, to, w.copyFails);
      if copied.Err? {
        var cleaned := Remove(to, w.cleanupFails);
        if from <= to {
          assert t0 + map[] == t0;
          CleanedPart(t0, to, map[], w.cleanupFails);
        } else {
          CleanedUp(t0, from, to, w.copyFails.value, w.cleanupFails);
        }
        // An error of the cleanup itself is passed on as it is.
        return Err(if cleaned.Err? then Internal else Thrown(copied.error));
      }
      var removed := Remove(from, w.removeFails);
      CopyThenRemove(t0, from, to);
      if removed.Err? {
        SourceLeft(t0, from, to, w.removeFails);
        return Err(Thrown(removed.error));
      }
      RelocatedWellFormed(t0, from, to);
      r := Ok(());
    }

    /** Deleting acts on the entry itself; the root is refused and nothing else changes. */
    method DeleteEntry(root: Path, relPath: string, followSymlinks: bool, fails: Option<RemoveFailure>)
      returns (r: Result<Path, Refused>)
      requires Valid() && Normal(root)
      modifies this
      ensures Valid()
      ensures var entry := ResolveEntry(old(tree), root, relPath, followSymlinks);
              if entry.Err? then r == entry && tree == old(tree)
              else if entry.value == root then r == Err(BadRequest) && tree == old(tree)
              else
                && root < entry.value
                && (fails.None? ==> r == entry && tree == Without(old(tree), entry.value))
                && (fails.Some? ==> r == Err(Thrown(fails.value.error))
                                    && OnlyLess(old(tree), tree, entry.value))
      ensures r.Ok? ==> EntryAt(old(tree), root, relPath, followSymlinks, r.value)
      ensures forall p :: EntryAt(old(tree), root, relPath, followSymlinks, p) && p != root && fails.None? ==>
                r == Ok(p) && tree == Without(old(tree), p)
    {
      forall p
        ensures ResolveEntry(tree, root, relPath, followSymlinks) == Ok(p)
                <==> EntryAt(tree, root, relPath, followSymlinks, p)
      {
        ResolveEntryExactly(tree, root, relPath, followSymlinks, p);
      }
      var entry := ResolveEntry(tree, root, relPath, followSymlinks);
      if entry.Err? {
        return Err(entry.error);
      }
      var abs := entry.value;
      if abs == root {
        return Err(BadRequest);
      }
      EntryInside(tree, root, relPath, followSymlinks);
      RemovalWellFormed(tree, abs, fails);
      var removed := Remove(abs, fails);
      if removed.Err? {
        return Err(Thrown(removed.error));
      }
      r := Ok(abs);
    }

    /** One new, empty directory at a free name, or no change at all. */
    method CreateFolder(root: Path, relPath: string, followSymlinks: bool, fails: Option<FsError>)
      returns (r: Result<Path, Refused>)
      requires Valid() && Normal(root)
      modifies this
      ensures Valid()
      ensures r == (match ResolveNew(old(tree), root, relPath, followSymlinks)
                    case Err(e) => Err(e)
                    case Ok(p) =>
                      if p in old(tree) then Err(Conflict)
                      else if fails.Some? then Err(Thrown(fails.value)) else Ok(p))
      ensures tree == if r.Ok? then old(tree)[r.value := Dir] else old(tree)
      ensures r.Ok? ==> NewAt(old(tree), root, relPath, followSymlinks, r.value)
      ensures forall p :: NewAt(old(tree), root, relPath, followSymlinks, p) && p !in old(tree) && fails.None? ==>
                r == Ok(p)
    {
      forall p
        ensures ResolveNew(tree, root, relPath, followSymlinks) == Ok(p)
                <==> NewAt(tree, root, relPath, followSymlinks, p)
      {
        ResolveNewExactly(tree, root, relPath, followSymlinks, p);
      }
      var target := ResolveNew(tree, root, relPath, followSymlinks);
      if target.Err? {
        return Err(target.error);
      }
      if target.value in tree {
        return Err(Conflict);
      }
      if fails.Some? {
        return Err(Thrown(fails.value));
      }
      NewInside(tree, root, relPath, followSymlinks);
      NewFolderWellFormed(tree, target.value);
      tree := tree[target.value := Dir];
      r := Ok(target.value);
    }
  }

  /** What a move that did not succeed leaves, step by step. */
  ghost predicate FailedMove(t: Tree, t': Tree, from: Path, to: Path, w: Weather) {
    if !w.AcrossDevices() || from <= to then t' == t
    else if w.copyFails.None? then CopySafe(t, t', from, to)
    else
      && Leftover(t, t', from, to)
      && (t' == t <==> w.cleanupFails.None?
                       || PartlyCopied(t, from, to, w.copyFails.value).Keys <= w.cleanupFails.value.reached)
  }

  /** Nothing has changed but that some of what is at `p` is gone. */
  ghost predicate OnlyLess(t: Tree, t': Tree, p: Path) {
    forall q :: Lookup(t', q) == Lookup(t, q) || (p <= q && q !in t')
  }

  lemma NewFolderWellFormed(t: Tree, p: Path)
    requires WellFormed(t) && p !in t && p != [] && Normal(p) && Parent(p) in t && t[Parent(p)] == Dir
    ensures WellFormed(t[p := Dir])
  {}

  /** A failed copy, cleaned up or not: the tree is as before exactly if the cleanup got to all of the part copied. */
  lemma CleanedUp(t: Tree, from: Path, to: Path, f: CopyFailure, cleanup: Option<RemoveFailure>)
    requires WellFormed(t) && from in t && from != [] && to !in t
    requires to != [] && Normal(to) && Parent(to) in t && t[Parent(to)] == Dir
    ensures var t' := AfterRemoval(t + PartlyCopied(t, from, to, f), to, cleanup);
            && WellFormed(t') && Leftover(t, t', from, to)
            && (t' == t <==> cleanup.None? || PartlyCopied(t, from, to, f).Keys <= cleanup.value.reached)
  {
    var part := PartlyCopied(t, from, to, f);
    PartlyCopiedWellFormed(t, from, to, f);
    RemovalWellFormed(t + part, to, cleanup);
    CleanedPart(t, to, part, cleanup);
  }

  lemma CleanedPart(t: Tree, to: Path, part: Tree, cleanup: Option<RemoveFailure>)
    requires WellFormed(t) && to !in t && forall q :: q in part ==> to <= q
    ensures var t' := AfterRemoval(t + part, to, cleanup);
            && Without(t', to) == t
            && (forall q :: q in t' && to <= q ==> q in part)
            && (t' == t <==> cleanup.None? || part.Keys <= cleanup.value.reached)
  {
    forall q | q in t
      ensures !(to <= q)
    {
      NotInside(t, to, q);
    }
    var t' := AfterRemoval(t + part, to, cleanup);
    if q :| cleanup.Some? && q in part && q !in cleanup.value.reached {
      assert q in t' && q !in t;
    }
  }

  /** Failing inputs: a file half copied to another device, and no permission to take the half away. */
  lemma PartStays(a: Name, b: Name, data: seq<Byte>, half: seq<Byte>, error: FsError)
    requires Normal([a]) && a != b
    ensures var t: Tree := map[[] := Dir, [a] := File(data)];
            var f := CopyFailure({[b]}, map[[b] := half], error);
            var t' := AfterRemoval(t + PartlyCopied(t, [a], [b], f), [b], Some(RemoveFailure({}, error)));
            WellFormed(t) && t' == t[[b] := File(half)] && t' != t
  {
    var t: Tree := map[[] := Dir, [a] := File(data)];
    OneFileWellFormed(t, [a]);
    HalfCopied(t, a, b, CopyFailure({[b]}, map[[b] := half], error), half);
    assert t + map[[b] := File(half)] == t[[b] := File(half)];
    NothingReached(t[[b] := File(half)], [b], error);
    assert [b] !in t;
  }

  lemma OneFileWellFormed(t: Tree, p: Path)
    requires |p| == 1 && Normal(p) && t.Keys == {[], p} && t[[]] == Dir && t[p].File?
    ensures WellFormed(t)
  {
    assert Parent(p) == [];
  }

  lemma NothingReached(t: Tree, p: Path, error: FsError)
    ensures AfterRemoval(t, p, Some(RemoveFailure({}, error))) == t
  {
    forall q | q in t
      ensures q in AfterRemoval(t, p, Some(RemoveFailure({}, error)))
    {
      assert q <= q;
    }
  }

  lemma HalfCopied(t: Tree, a: Name, b: Name, f: CopyFailure, half: seq<Byte>)
    requires t.Keys == {[], [a]} && t[[a]].File? && f.reached == {[b]} && f.cut == map[[b] := half]
    ensures PartlyCopied(t, [a], [b], f) == map[[b] := File(half)]
  {
    var copy, part := Subtree(t, [a], [b]), PartlyCopied(t, [a], [b], f);
    assert Origin([a], [b], [b]) == [a];
    forall q | q in copy
      ensures q == [b]
    {
      assert q == [b] + q[1..] && Origin([a], [b], q) == [a] + q[1..];
    }
    assert copy.Keys == {[b]} && part.Keys == {[b]};
  }

  /** A complete copy whose source could not be removed whole. */
  lemma SourceLeft(t: Tree, from: Path, to: Path, fails: Option<RemoveFailure>)
    requires WellFormed(t) && from in t && from != [] && to !in t && !(from <= to)
    requires to != [] && Normal(to) && Parent(to) in t && t[Parent(to)] == Dir
    ensures var t' := AfterRemoval(t + Subtree(t, from, to), from, fails);
            WellFormed(t') && CopySafe(t, t', from, to)
  {
    CopyApart(t, from, to);
    CopiedWellFormed(t, from, to);
    RemovalWellFormed(t + Subtree(t, from, to), from, fails);
  }

  /** A copy standing at a free name is outside the source and overwrites nothing. */
  lemma CopyApart(t: Tree, from: Path, to: Path)
    requires WellFormed(t) && from in t && to !in t && !(from <= to)
    ensures forall q :: q in Subtree(t, from, to) ==> !(from <= q) && q !in t
  {
    forall q | q in Subtree(t, from, to)
      ensures !(from <= q) && q !in t
    {
      FreeBelow(t, to, q);
      if from <= q {
        PrefixesComparable(from, to, q);
        FreeBelow(t, to, from);
      }
    }
  }

  lemma PrefixesComparable(a: Path, b: Path, q: Path)
    requires a <= q && b <= q
    ensures a <= b || b <= a
  {
    assert a == q[..|a|] && b == q[..|b|];
    if |a| <= |b| {
      assert q[..|b|][..|a|] == q[..|a|];
    } else {
      assert q[..|a|][..|b|] == q[..|b|];
    }
  }

  /** The copy-and-remove fallback ends where the rename does. */
  lemma CopyThenRemove(t: Tree, from: Path, to: Path)
    requires WellFormed(t) && from in t && to !in t && !(from <= to)
    ensures Without(t + Subtree(t, from, to), from) == Relocated(t, from, to)
  {
    CopyApart(t, from, to);
  }
}
