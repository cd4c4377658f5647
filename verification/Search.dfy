/** The bounded depth-first name search of src/server/search.ts. */
module Search {
  import opened Bytes
  import opened Paths
  import opened FileTree

  const DEFAULT_SEARCH_LIMIT: int := 200
  const MAX_SEARCH_LIMIT: int := 1000

  /** A missing, infinite or non-numeric limit counts as None. */
  function ClampSearchLimit(limit: Option<real>): (r: int)
    ensures 1 <= r <= MAX_SEARCH_LIMIT
    ensures limit.None? ==> r == DEFAULT_SEARCH_LIMIT
    ensures limit.Some? && limit.value < 1.0 ==> r == 1
    ensures limit.Some? && limit.value >= MAX_SEARCH_LIMIT as real ==> r == MAX_SEARCH_LIMIT
    ensures limit.Some? && 1.0 <= limit.value < (MAX_SEARCH_LIMIT + 1) as real ==> r as real <= limit.value < (r + 1) as real
  {
    if limit.None? then DEFAULT_SEARCH_LIMIT
    else Min(Max(1, limit.value.Floor), MAX_SEARCH_LIMIT)
  }

  datatype Kind = Skipped | Folder | Plain

  /** One directory entry the walk looks at, and whether it is a result. */
  datatype Entry = Entry(path: Path, kind: Kind, hit: bool)

  /**
   * What a search is asked, over a tree that stays put: `list` is the order a
   * directory's names are read in, `matches` the name-and-type filter.
   */
  datatype Query = Query(
    tree: Tree,
    root: Path,
    list: Path -> seq<Name>,
    matches: (Name, bool) -> bool,
    limit: nat,
    maxScanned: nat,
    followSymlinks: bool
  ) {
    /** The names read from a directory reached as `dir`, or none if it cannot be read. */
    function Names(dir: Path): seq<Name> {
      match Realpath(tree, dir)
      case Err(_) => []
      case Ok(target) => if IsDirectory(tree, target) then list(target) else []
    }

    /** How an entry counts: skipped, a folder or a file. */
    function KindOf(dir: Path, name: Name): Kind {
      match Realpath(tree, dir)
      case Err(_) => Skipped
      case Ok(real_) =>
        var at := real_ + [name];
        if at !in tree then Skipped
        else
          match tree[at]
          case Dir => Folder
          case File(_) => Plain
          case Link(_) =>
            if !followSymlinks then Skipped
            else
              match Realpath(tree, dir + [name])
              case Err(_) => Skipped
              case Ok(target) =>
                if !IsInside(Render(root), Render(target)) || target !in tree then Skipped
                else if tree[target] == Dir then Folder else Plain
    }

    function EntryOf(dir: Path, name: Name): Entry {
      var kind := KindOf(dir, name);
      Entry(dir + [name], kind, kind != Skipped && matches(name, kind == Folder))
    }
  }

  /**
   * Every entry below `dir` in walk order, folders entered up to `depth` deep.
   * Symlink cycles repeat entries until the kernel refuses to follow the
   * growing path, which is far out of reach of any scan; a depth cuts it.
   */
  function Preorder(q: Query, dir: Path, names: seq<Name>, depth: nat): seq<Entry>
    decreases depth, |names|, 1
  {
    if names == [] then []
    else Preorder(q, dir, names[..|names| - 1], depth) + Below(q, dir, names[|names| - 1], depth, |names| - 1)
  }

  function Below(q: Query, dir: Path, name: Name, depth: nat, ghost rank: nat): seq<Entry>
    decreases depth, rank, 0
  {
    var e := q.EntryOf(dir, name);
    [e] + (if e.kind == Folder && depth > 0 then Preorder(q, e.path, q.Names(e.path), depth - 1) else [])
  }

  datatype Progress = Progress(hits: seq<Path>, scanned: nat, truncated: bool)

  /** Looking at one entry. */
  function Examine(q: Query, p: Progress, e: Entry): Progress {
    if p.truncated then p
    else if p.scanned + 1 > q.maxScanned then p.(scanned := p.scanned + 1, truncated := true)
    else if !e.hit then p.(scanned := p.scanned + 1)
    else Progress(p.hits + [e.path], p.scanned + 1, |p.hits| + 1 >= q.limit)
  }

  function ExamineAll(q: Query, p: Progress, entries: seq<Entry>): Progress {
    if entries == [] then p
    else Examine(q, ExamineAll(q, p, entries[..|entries| - 1]), entries[|entries| - 1])
  }

  lemma {:induction false} ExamineConcat(q: Query, p: Progress, a: seq<Entry>, b: seq<Entry>)
    ensures ExamineAll(q, p, a + b) == ExamineAll(q, ExamineAll(q, p, a), b)
    decreases |b|
  {
    if b == [] {
      assert a + b == a;
    } else {
      assert (a + b)[..|a + b| - 1] == a + b[..|b| - 1];
      ExamineConcat(q, p, a, b[..|b| - 1]);
    }
  }

  lemma {:induction false} TruncatedStays(q: Query, p: Progress, entries: seq<Entry>)
    requires p.truncated
    ensures ExamineAll(q, p, entries) == p
  {
    if entries != [] {
      TruncatedStays(q, p, entries[..|entries| - 1]);
    }
  }

  class Searcher {
    const q: Query
    var hits: seq<Path>
    var scanned: nat
    var truncated: bool

    ghost function State(): Progress
      reads this
    {
      Progress(hits, scanned, truncated)
    }

    constructor (q: Query)
      ensures this.q == q && State() == Progress([], 0, false)
    {
      this.q, hits, scanned, truncated := q, [], 0, false;
    }

    /**
     * Walks one directory. Every entry uses up scan budget, so the walk ends
     * soon even among symlink cycles, and cutting the order at any depth the
     * budget cannot reach makes no difference.
     */
    method Walk(dirAbs: Path, ghost depth: nat)
      requires !truncated && scanned <= q.maxScanned <= scanned + depth
      modifies this
      ensures State() == ExamineAll(q, old(State()), Preorder(q, dirAbs, q.Names(dirAbs), depth))
      ensures scanned >= old(scanned) && (!truncated ==> scanned <= q.maxScanned)
      decreases q.maxScanned - scanned
    {
      var dirents := q.Names(dirAbs);
      ghost var p0 := State();
      var i := 0;
      while i < |dirents| && !truncated
        invariant 0 <= i <= |dirents|
        invariant State() == ExamineAll(q, p0, Preorder(q, dirAbs, dirents[..i], depth))
        invariant scanned >= old(scanned) && (!truncated ==> scanned <= q.maxScanned)
        decreases |dirents| - i
      {
        OneMore(q, p0, dirAbs, dirents, i, depth);
        Visit(dirAbs, dirents[i], depth, i);
        i := i + 1;
      }
      if truncated {
        RestIgnored(q, p0, dirAbs, dirents, i, depth);
      } else {
        assert dirents[..i] == dirents;
      }
    }

    /** The body of the walk's loop: one entry, and what is below it. */
    method Visit(dirAbs: Path, name: Name, ghost depth: nat, ghost rank: nat)
      requires !truncated && scanned <= q.maxScanned <= scanned + depth
      modifies this
      ensures State() == ExamineAll(q, old(State()), Below(q, dirAbs, name, depth, rank))
      ensures scanned > old(scanned) && (!truncated ==> scanned <= q.maxScanned)
      decreases q.maxScanned - scanned, 0
    {
      ghost var p0 := State();
      ghost var e := q.EntryOf(dirAbs, name);
      ghost var rest := Entered(q, e, depth);
      ExamineBelow(q, p0, dirAbs, name, depth, rank);
      scanned := scanned + 1;
      if scanned > q.maxScanned {
        truncated := true;
        TruncatedStays(q, State(), rest);
        return;
      }
      var entryAbs := dirAbs + [name];
      var kind := q.KindOf(dirAbs, name);
      if kind == Skipped {
        return;
      }
      var isDir := kind == Folder;
      if q.matches(name, isDir) {
        hits := hits + [entryAbs];
        if |hits| >= q.limit {
          truncated := true;
          TruncatedStays(q, State(), rest);
          return;
        }
      }
      if isDir {
        Walk(entryAbs, depth - 1);
      }
    }
  }

  lemma OneMore(q: Query, p: Progress, dir: Path, names: seq<Name>, i: nat, depth: nat)
    requires i < |names|
    ensures ExamineAll(q, p, Preorder(q, dir, names[..i + 1], depth))
         == ExamineAll(q, ExamineAll(q, p, Preorder(q, dir, names[..i], depth)), Below(q, dir, names[i], depth, i))
  {
    assert names[..i + 1][..i] == names[..i];
    ExamineConcat(q, p, Preorder(q, dir, names[..i], depth), Below(q, dir, names[i], depth, i));
  }

  lemma ExamineOne(q: Query, p: Progress, e: Entry)
    ensures ExamineAll(q, p, [e]) == Examine(q, p, e)
  {
    assert [e][..0] == [];
  }

  lemma {:induction false} RestIgnored(q: Query, p: Progress, dir: Path, names: seq<Name>, i: nat, depth: nat)
    requires i <= |names| && ExamineAll(q, p, Preorder(q, dir, names[..i], depth)).truncated
    ensures ExamineAll(q, p, Preorder(q, dir, names, depth)) == ExamineAll(q, p, Preorder(q, dir, names[..i], depth))
    decreases |names|
  {
    if i == |names| {
      assert names[..i] == names;
    } else {
      var init, last := names[..|names| - 1], names[|names| - 1];
      assert init[..i] == names[..i];
      RestIgnored(q, p, dir, init, i, depth);
      var more := Below(q, dir, last, depth, |init|);
      ExamineConcat(q, p, Preorder(q, dir, init, depth), more);
      TruncatedStays(q, ExamineAll(q, p, Preorder(q, dir, init, depth)), more);
    }
  }

  lemma {:induction false} ScannedGrows(q: Query, p: Progress, entries: seq<Entry>)
    ensures ExamineAll(q, p, entries).scanned >= p.scanned
    ensures p.scanned <= q.maxScanned && !ExamineAll(q, p, entries).truncated
            ==> ExamineAll(q, p, entries).scanned <= q.maxScanned
  {
    if entries != [] {
      ScannedGrows(q, p, entries[..|entries| - 1]);
    }
  }

  ghost predicate Covers(q: Query, p: Progress, depth: nat) {
    !p.truncated && p.scanned <= q.maxScanned <= p.scanned + depth
  }

  /** Cutting the order at any depth the scan budget cannot reach makes no difference. */
  lemma {:induction false} DepthIrrelevant(q: Query, p: Progress, dir: Path, names: seq<Name>, d: nat, d': nat)
    requires Covers(q, p, d) && Covers(q, p, d')
    ensures ExamineAll(q, p, Preorder(q, dir, names, d)) == ExamineAll(q, p, Preorder(q, dir, names, d'))
    decreases d, |names|, 2
  {
    if names != [] {
      var n := |names| - 1;
      var init, last := names[..n], names[n];
      assert names[..n + 1] == names;
      DepthIrrelevant(q, p, dir, init, d, d');
      var p1 := ExamineAll(q, p, Preorder(q, dir, init, d));
      OneMore(q, p, dir, names, n, d);
      OneMore(q, p, dir, names, n, d');
      if p1.truncated {
        TruncatedStays(q, p1, Below(q, dir, last, d, n));
        TruncatedStays(q, p1, Below(q, dir, last, d', n));
      } else {
        ScannedGrows(q, p, Preorder(q, dir, init, d));
        BelowIrrelevant(q, p1, dir, last, d, d', n);
      }
    }
  }

  lemma BelowIrrelevant(q: Query, p: Progress, dir: Path, name: Name, d: nat, d': nat, rank: nat)
    requires Covers(q, p, d) && Covers(q, p, d')
    ensures ExamineAll(q, p, Below(q, dir, name, d, rank)) == ExamineAll(q, p, Below(q, dir, name, d', rank))
    decreases d, rank, 1
  {
    var e := q.EntryOf(dir, name);
    var p1 := Examine(q, p, e);
    ExamineBelow(q, p, dir, name, d, rank);
    ExamineBelow(q, p, dir, name, d', rank);
    EnteredIrrelevant(q, p, p1, e, d, d', rank);
  }

  lemma EnteredIrrelevant(q: Query, p: Progress, p1: Progress, e: Entry, d: nat, d': nat, rank: nat)
    requires Covers(q, p, d) && Covers(q, p, d') && p1 == Examine(q, p, e)
    ensures ExamineAll(q, p1, Entered(q, e, d)) == ExamineAll(q, p1, Entered(q, e, d'))
    decreases d, rank, 0
  {
    if p1.truncated {
      TruncatedStays(q, p1, Entered(q, e, d));
      TruncatedStays(q, p1, Entered(q, e, d'));
    } else if e.kind == Folder {
      DepthIrrelevant(q, p1, e.path, q.Names(e.path), d - 1, d' - 1);
    }
  }

  function Entered(q: Query, e: Entry, depth: nat): seq<Entry> {
    if e.kind == Folder && depth > 0 then Preorder(q, e.path, q.Names(e.path), depth - 1) else []
  }

  lemma ExamineBelow(q: Query, p: Progress, dir: Path, name: Name, depth: nat, rank: nat)
    ensures var e := q.EntryOf(dir, name);
            ExamineAll(q, p, Below(q, dir, name, depth, rank))
            == ExamineAll(q, Examine(q, p, e), Entered(q, e, depth))
  {
    var e := q.EntryOf(dir, name);
    ExamineConcat(q, p, [e], Entered(q, e, depth));
    ExamineOne(q, p, e);
  }

  // --- what a search answers -----------------------------------------------------

  /** The matching entries, in order. */
  function Hits(entries: seq<Entry>): seq<Path> {
    if entries == [] then []
    else Hits(entries[..|entries| - 1]) + (if entries[|entries| - 1].hit then [entries[|entries| - 1].path] else [])
  }

  /** Scanning from the start: where it stops and what it has by then. */
  lemma {:induction false} ExamineExactly(q: Query, entries: seq<Entry>)
    requires q.limit > 0
    ensures var p := ExamineAll(q, Progress([], 0, false), entries);
            && p.hits <= Hits(entries) && |p.hits| <= q.limit
            && (!p.truncated ==> p.hits == Hits(entries) && p.scanned == |entries| <= q.maxScanned && |p.hits| < q.limit)
            && (p.truncated ==> |Hits(entries)| >= q.limit || |entries| > q.maxScanned)
  {
    if entries != [] {
      ExamineExactly(q, entries[..|entries| - 1]);
    }
  }

  /** The entries a scan gets to. */
  function Scanned(q: Query, entries: seq<Entry>): seq<Entry> {
    entries[..Min(|entries|, q.maxScanned)]
  }

  function Take(s: seq<Path>, n: nat): seq<Path> {
    s[..Min(|s|, n)]
  }

  /** What a scan has found: the first `limit` matches among the entries it gets to. */
  lemma {:induction false} FoundExactly(q: Query, entries: seq<Entry>)
    requires q.limit > 0
    ensures ExamineAll(q, Progress([], 0, false), entries).hits == Take(Hits(Scanned(q, entries)), q.limit)
  {
    if entries != [] {
      var init := entries[..|entries| - 1];
      FoundExactly(q, init);
      ExamineExactly(q, init);
      if |entries| <= q.maxScanned {
        assert Scanned(q, entries) == entries && Scanned(q, init) == init;
      } else {
        assert Scanned(q, entries) == Scanned(q, init);
      }
    }
  }

  /**
   * Exactly when a search is flagged as cut short though nothing is missing:
   * all matches lie within the scan, and there are just `limit` of them or
   * fewer with entries left to scan.
   */
  lemma FlaggedCompleteExactly(q: Query, entries: seq<Entry>)
    requires q.limit > 0
    ensures var p := ExamineAll(q, Progress([], 0, false), entries);
            && (p.truncated && p.hits == Hits(entries)
                <==> Hits(Scanned(q, entries)) == Hits(entries)
                     && (|Hits(entries)| == q.limit || (|Hits(entries)| < q.limit && |entries| > q.maxScanned)))
            && (|Hits(entries)| == q.limit && |entries| <= q.maxScanned ==> p.truncated && p.hits == Hits(entries))
  {
    ExamineExactly(q, entries);
    FoundExactly(q, entries);
    var cut := Min(|entries|, q.maxScanned);
    assert entries[..cut] + entries[cut..] == entries;
    HitsConcat(entries[..cut], entries[cut..]);
    if |entries| <= q.maxScanned {
      assert Scanned(q, entries) == entries;
    }
  }

  lemma {:induction false} HitsConcat(a: seq<Entry>, b: seq<Entry>)
    ensures Hits(a + b) == Hits(a) + Hits(b)
    decreases |b|
  {
    if b == [] {
      assert a + b == a;
    } else {
      assert (a + b)[..|a + b| - 1] == a + b[..|b| - 1];
      HitsConcat(a, b[..|b| - 1]);
    }
  }

  // --- what is in the tree -------------------------------------------------------

  /** Reading a directory yields exactly the names of its entries. */
  ghost predicate Enumerates(q: Query) {
    forall d, name :: d in q.tree && q.tree[d] == Dir ==> (name in q.list(d) <==> d + [name] in q.tree)
  }

  /** Going down from `dir` along `tail` leads through folders to a matching entry. */
  ghost predicate Shown(q: Query, dir: Path, tail: Path)
    requires tail != []
    decreases |tail|
  {
    if |tail| == 1 then q.EntryOf(dir, tail[0]).hit
    else q.KindOf(dir, tail[0]) == Folder && Shown(q, dir + [tail[0]], tail[1..])
  }

  ghost predicate ShownBelow(q: Query, scope: Path, p: Path) {
    scope < p && Shown(q, scope, p[|scope|..])
  }

  /** Whatever the walk would not skip is read. */
  ghost predicate AllListed(q: Query) {
    forall dir, name :: q.KindOf(dir, name) != Skipped ==> name in q.Names(dir)
  }

  lemma NamesListed(q: Query)
    requires WellFormed(q.tree) && Enumerates(q)
    ensures AllListed(q)
  {
    forall dir, name | q.KindOf(dir, name) != Skipped
      ensures name in q.Names(dir)
    {
      var target := Realpath(q.tree, dir).value;
      assert Parent(target + [name]) == target;
    }
  }

  /** An entry read from a directory is in its order, and all below it with it. */
  lemma {:induction false} ChildInOrder(q: Query, dir: Path, names: seq<Name>, name: Name, depth: nat)
    requires name in names
    ensures var e, order := q.EntryOf(dir, name), Preorder(q, dir, names, depth);
            e in order && (forall x :: x in Entered(q, e, depth) ==> x in order) && |order| > |Entered(q, e, depth)|
  {
    var init, last := names[..|names| - 1], names[|names| - 1];
    if name != last {
      ChildInOrder(q, dir, init, name, depth);
    }
    assert Below(q, dir, last, depth, |init|) == [q.EntryOf(dir, last)] + Entered(q, q.EntryOf(dir, last), depth);
  }

  ghost predicate HitAt(order: seq<Entry>, p: Path) {
    exists e :: e in order && e.hit && e.path == p
  }

  /** A shown entry is in the order if that is deep enough, and the order is long if it is not. */
  lemma {:induction false} ShownInOrder(q: Query, dir: Path, tail: Path, depth: nat)
    requires AllListed(q) && tail != [] && Shown(q, dir, tail)
    ensures var order := Preorder(q, dir, q.Names(dir), depth);
            |order| >= Min(|tail|, depth + 1) && (|tail| <= depth + 1 ==> HitAt(order, dir + tail))
    decreases |tail|
  {
    var e := q.EntryOf(dir, tail[0]);
    ChildInOrder(q, dir, q.Names(dir), tail[0], depth);
    var order, below := Preorder(q, dir, q.Names(dir), depth), Entered(q, e, depth);
    if |tail| == 1 {
      assert dir + tail == e.path;
    } else if depth > 0 {
      assert dir + tail == e.path + tail[1..];
      ShownInOrder(q, e.path, tail[1..], depth - 1);
      OneLevelMore(order, below, |tail|, depth, dir + tail);
    }
  }

  lemma OneLevelMore(order: seq<Entry>, below: seq<Entry>, n: nat, depth: nat, p: Path)
    requires n > 1 && depth > 0 && |order| > |below| && forall x :: x in below ==> x in order
    requires |below| >= Min(n - 1, depth) && (n - 1 <= depth ==> HitAt(below, p))
    ensures |order| >= Min(n, depth + 1) && (n <= depth + 1 ==> HitAt(order, p))
  {}

  /** Nothing else is a hit. */
  lemma {:induction false} HitShown(q: Query, dir: Path, names: seq<Name>, depth: nat, e: Entry)
    requires e in Preorder(q, dir, names, depth) && e.hit
    ensures ShownBelow(q, dir, e.path)
    decreases depth, |names|
  {
    var init, name := names[..|names| - 1], names[|names| - 1];
    if e in Preorder(q, dir, init, depth) {
      HitShown(q, dir, init, depth, e);
    } else {
      var here := q.EntryOf(dir, name);
      if e == here {
        assert e.path[|dir|..] == [name];
      } else {
        HitShown(q, here.path, q.Names(here.path), depth - 1, e);
        OneLevelUp(q, dir, name, e.path);
      }
    }
  }

  lemma OneLevelUp(q: Query, dir: Path, name: Name, p: Path)
    requires q.KindOf(dir, name) == Folder && ShownBelow(q, dir + [name], p)
    ensures ShownBelow(q, dir, p)
  {
    var tail := p[|dir|..];
    assert tail[0] == name && tail[1..] == p[|dir| + 1..];
  }

  lemma {:induction false} HitsExactly(entries: seq<Entry>, p: Path)
    ensures p in Hits(entries) <==> HitAt(entries, p)
  {
    if entries != [] {
      var init, last := entries[..|entries| - 1], entries[|entries| - 1];
      HitsExactly(init, p);
      assert entries == init + [last];
    }
  }

  /** A scan that ran to its end has found exactly what is shown. */
  lemma CompleteExactly(q: Query, scope: Path, p: Path)
    requires WellFormed(q.tree) && Enumerates(q)
    requires |Preorder(q, scope, q.Names(scope), q.maxScanned)| <= q.maxScanned
    ensures p in Hits(Preorder(q, scope, q.Names(scope), q.maxScanned)) <==> ShownBelow(q, scope, p)
  {
    var order := Preorder(q, scope, q.Names(scope), q.maxScanned);
    HitsExactly(order, p);
    if HitAt(order, p) {
      var e :| e in order && e.hit && e.path == p;
      HitShown(q, scope, q.Names(scope), q.maxScanned, e);
    }
    if ShownBelow(q, scope, p) {
      NamesListed(q);
      ShownInOrder(q, scope, p[|scope|..], q.maxScanned);
      assert scope + p[|scope|..] == p;
    }
  }

  // --- what is shown, from the tree alone ----------------------------------------

  ghost predicate LeadsToDirectory(q: Query, p: Path) {
    Realpath(q.tree, p).Ok? && IsDirectory(q.tree, Realpath(q.tree, p).value)
  }

  /**
   * The directory reached as `dir` has an entry `name` that may be seen: any
   * file or folder, and a symlink if symlinks are followed and it leads
   * somewhere inside the root.
   */
  ghost predicate Visible(q: Query, dir: Path, name: Name) {
    && Realpath(q.tree, dir).Ok?
    && var at := Realpath(q.tree, dir).value + [name];
       && at in q.tree
       && (q.tree[at].Link? ==>
             && q.followSymlinks
             && Realpath(q.tree, dir + [name]).Ok? && Within(q.root, Realpath(q.tree, dir + [name]).value))
  }

  /** Component `k` of `p` is visible where it stands, and leads to a directory if more follow it. */
  ghost predicate Passable(q: Query, p: Path, k: nat)
    requires k < |p|
  {
    Visible(q, p[..k], p[k]) && (k + 1 < |p| ==> LeadsToDirectory(q, p[..k + 1]))
  }

  /** The tree has a way to `p` below the scope, each component of it visible where it stands, and its last name matches. */
  ghost predicate Findable(q: Query, scope: Path, p: Path) {
    && scope < p
    && (forall k :: |scope| <= k < |p| ==> Passable(q, p, k))
    && q.matches(p[|p| - 1], LeadsToDirectory(q, p))
  }

  /** An entry is counted exactly if it is visible, and as a folder exactly if it leads to a directory. */
  lemma KindExactly(q: Query, dir: Path, name: Name)
    requires WellFormed(q.tree) && Normal(q.root)
    ensures q.KindOf(dir, name) != Skipped <==> Visible(q, dir, name)
    ensures Visible(q, dir, name) ==> (q.KindOf(dir, name) == Folder <==> LeadsToDirectory(q, dir + [name]))
  {
    if Realpath(q.tree, dir).Ok? && Realpath(q.tree, dir).value + [name] in q.tree {
      var at := Realpath(q.tree, dir).value + [name];
      if q.tree[at].Link? {
        if Realpath(q.tree, dir + [name]).Ok? {
          RealpathReal(q.tree, dir + [name]);
          IsInsideExactly(q.root, Realpath(q.tree, dir + [name]).value);
        }
      } else {
        EntryInDirectory(q.tree, Realpath(q.tree, dir).value, name);
        PlainEntryResolves(q.tree, dir, name);
      }
    }
  }

  /** An entry that is no symlink is found where its directory is. */
  lemma PlainEntryResolves(t: Tree, dir: Path, name: Name)
    requires Realpath(t, dir).Ok? && IsDirectory(t, Realpath(t, dir).value)
    requires var at := Realpath(t, dir).value + [name]; at in t && !t[at].Link?
    ensures Realpath(t, dir + [name]) == Ok(Realpath(t, dir).value + [name])
  {
    ResolveSplit(t, [], dir, [name], MAX_LINKS);
  }

  lemma EntryInDirectory(t: Tree, dir: Path, name: Name)
    requires WellFormed(t) && dir + [name] in t
    ensures IsDirectory(t, dir)
  {
    assert Parent(dir + [name]) == dir;
  }

  /** That holds of every entry. */
  ghost predicate KindsExact(q: Query) {
    forall dir, name ::
      && (q.KindOf(dir, name) != Skipped <==> Visible(q, dir, name))
      && (Visible(q, dir, name) ==> (q.KindOf(dir, name) == Folder <==> LeadsToDirectory(q, dir + [name])))
  }

  lemma {:induction false} ShownFrom(q: Query, p: Path, k: nat)
    requires KindsExact(q) && k < |p|
    ensures Shown(q, p[..k], p[k..])
            <==> (forall j :: k <= j < |p| ==> Passable(q, p, j))
                 && q.matches(p[|p| - 1], LeadsToDirectory(q, p))
    decreases |p| - k
  {
    ShownHere(q, p, k);
    if k + 1 < |p| {
      ShownFrom(q, p, k + 1);
    }
  }

  lemma ShownHere(q: Query, p: Path, k: nat)
    requires KindsExact(q) && k < |p|
    ensures Shown(q, p[..k], p[k..])
            <==> Passable(q, p, k)
                 && if k + 1 == |p| then q.matches(p[|p| - 1], LeadsToDirectory(q, p))
                    else Shown(q, p[..k + 1], p[k + 1..])
  {
    assert p[..k] + [p[k]] == p[..k + 1];
    if k + 1 == |p| {
      assert p[..k + 1] == p && p[k..] == [p[k]];
    } else {
      assert p[k..][1..] == p[k + 1..];
    }
  }

  /** What the walk shows is what the tree makes findable. */
  lemma ShownExactly(q: Query, scope: Path, p: Path)
    requires WellFormed(q.tree) && Normal(q.root)
    ensures ShownBelow(q, scope, p) <==> Findable(q, scope, p)
  {
    forall dir, name
      ensures q.KindOf(dir, name) != Skipped <==> Visible(q, dir, name)
      ensures Visible(q, dir, name) ==> (q.KindOf(dir, name) == Folder <==> LeadsToDirectory(q, dir + [name]))
    {
      KindExactly(q, dir, name);
    }
    if scope < p {
      assert p[..|scope|] == scope;
      ShownFrom(q, p, |scope|);
    }
  }

  // --- in which order ------------------------------------------------------------

  ghost predicate ListedBefore(q: Query, dir: Path, a: Name, b: Name) {
    exists i, j :: 0 <= i < j < |q.Names(dir)| && q.Names(dir)[i] == a && q.Names(dir)[j] == b
  }

  /** A folder comes before what is in it, and else the entry whose branch is read first. */
  ghost predicate Before(q: Query, p: Path, r: Path) {
    p < r
    || exists k: nat :: k < |p| && k < |r| && p[..k] == r[..k] && ListedBefore(q, p[..k], p[k], r[k])
  }

  ghost predicate Sorted(q: Query, entries: seq<Entry>) {
    forall i, j :: 0 <= i < j < |entries| ==> Before(q, entries[i].path, entries[j].path)
  }

  lemma SortedConcat(q: Query, a: seq<Entry>, b: seq<Entry>)
    requires Sorted(q, a) && Sorted(q, b)
    requires forall x, y :: x in a && y in b ==> Before(q, x.path, y.path)
    ensures Sorted(q, a + b)
  {}

  lemma OrderSplits(q: Query, dir: Path, names: seq<Name>, depth: nat)
    requires names != []
    ensures var here := q.EntryOf(dir, names[|names| - 1]);
            Preorder(q, dir, names, depth)
            == Preorder(q, dir, names[..|names| - 1], depth) + ([here] + Entered(q, here, depth))
  {}

  /** Whatever is found from these names is one of them or below it. */
  lemma {:induction false} FoundUnder(q: Query, dir: Path, names: seq<Name>, depth: nat)
    ensures forall e :: e in Preorder(q, dir, names, depth) ==>
              exists i :: 0 <= i < |names| && dir + [names[i]] <= e.path
    decreases depth, |names|
  {
    if names != [] {
      var init, here := names[..|names| - 1], q.EntryOf(dir, names[|names| - 1]);
      FoundUnder(q, dir, init, depth);
      EnteredBelow(q, here, depth);
      OrderSplits(q, dir, names, depth);
      forall e | e in Preorder(q, dir, names, depth)
        ensures exists i :: 0 <= i < |names| && dir + [names[i]] <= e.path
      {
        if e in Preorder(q, dir, init, depth) {
          var i :| 0 <= i < |init| && dir + [init[i]] <= e.path;
          assert names[i] == init[i];
        } else {
          assert e in [here] + Entered(q, here, depth);
          assert here.path <= e.path;
          assert dir + [names[|names| - 1]] <= e.path;
        }
      }
    }
  }

  lemma EnteredBelow(q: Query, here: Entry, depth: nat)
    ensures forall e :: e in Entered(q, here, depth) ==> here.path < e.path
    decreases depth, 0
  {
    if here.kind == Folder && depth > 0 {
      FoundUnder(q, here.path, q.Names(here.path), depth - 1);
    }
  }

  lemma BranchesOrdered(q: Query, dir: Path, i: nat, j: nat, p: Path, r: Path)
    requires i < j < |q.Names(dir)| && dir + [q.Names(dir)[i]] <= p && dir + [q.Names(dir)[j]] <= r
    ensures Before(q, p, r)
  {
    var k := |dir|;
    assert p[..k] == dir == r[..k];
    assert p[k] == q.Names(dir)[i] && r[k] == q.Names(dir)[j];
    assert ListedBefore(q, p[..k], p[k], r[k]);
  }

  /** The walk's order is the tree's: folders before their entries, branches as they are read. */
  lemma {:induction false} WalkSorted(q: Query, dir: Path, n: nat, depth: nat)
    requires n <= |q.Names(dir)|
    ensures Sorted(q, Preorder(q, dir, q.Names(dir)[..n], depth))
    decreases depth, n
  {
    if n > 0 {
      var here := q.EntryOf(dir, q.Names(dir)[n - 1]);
      WalkSorted(q, dir, n - 1, depth);
      if here.kind == Folder && depth > 0 {
        assert q.Names(here.path)[..|q.Names(here.path)|] == q.Names(here.path);
        WalkSorted(q, here.path, |q.Names(here.path)|, depth - 1);
      }
      OneBranchMore(q, dir, n, depth);
    }
  }

  lemma OneBranchMore(q: Query, dir: Path, n: nat, depth: nat)
    requires 0 < n <= |q.Names(dir)|
    requires Sorted(q, Preorder(q, dir, q.Names(dir)[..n - 1], depth))
    requires Sorted(q, Entered(q, q.EntryOf(dir, q.Names(dir)[n - 1]), depth))
    ensures Sorted(q, Preorder(q, dir, q.Names(dir)[..n], depth))
  {
    var names := q.Names(dir);
    var here := q.EntryOf(dir, names[n - 1]);
    var entered := Entered(q, here, depth);
    EnteredBelow(q, here, depth);
    SortedConcat(q, [here], entered);
    LaterBranch(q, dir, n, depth);
    SortedConcat(q, Preorder(q, dir, names[..n - 1], depth), [here] + entered);
    assert names[..n][..n - 1] == names[..n - 1] && names[..n][n - 1] == names[n - 1];
    OrderSplits(q, dir, names[..n], depth);
  }

  lemma LaterBranch(q: Query, dir: Path, n: nat, depth: nat)
    requires 0 < n <= |q.Names(dir)|
    ensures var here := q.EntryOf(dir, q.Names(dir)[n - 1]);
            forall x, y :: x in Preorder(q, dir, q.Names(dir)[..n - 1], depth) && y in [here] + Entered(q, here, depth)
              ==> Before(q, x.path, y.path)
  {
    var names := q.Names(dir);
    var here := q.EntryOf(dir, names[n - 1]);
    FoundUnder(q, dir, names[..n - 1], depth);
    EnteredBelow(q, here, depth);
    forall x, y | x in Preorder(q, dir, names[..n - 1], depth) && y in [here] + Entered(q, here, depth)
      ensures Before(q, x.path, y.path)
    {
      var i :| 0 <= i < n - 1 && dir + [names[..n - 1][i]] <= x.path;
      BranchesOrdered(q, dir, i, n - 1, x.path, y.path);
    }
  }

  lemma {:induction false} HitsSorted(q: Query, entries: seq<Entry>)
    requires Sorted(q, entries)
    ensures forall i, j :: 0 <= i < j < |Hits(entries)| ==> Before(q, Hits(entries)[i], Hits(entries)[j])
  {
    if entries != [] {
      var init, last := entries[..|entries| - 1], entries[|entries| - 1];
      HitsSorted(q, init);
      forall p | p in Hits(init)
        ensures Before(q, p, last.path)
      {
        HitsExactly(init, p);
        var e :| e in init && e.hit && e.path == p;
        var i :| 0 <= i < |init| && init[i] == e;
        assert entries[i] == e;
      }
    }
  }

  /** Results come in the tree's order, each findable, whether or not the search is cut short. */
  lemma ResultsFindable(q: Query, scope: Path, depth: nat)
    ensures var all := Hits(Preorder(q, scope, q.Names(scope), depth));
            && (forall i, j :: 0 <= i < j < |all| ==> Before(q, all[i], all[j]))
            && (WellFormed(q.tree) && Normal(q.root) ==> forall p :: p in all ==> Findable(q, scope, p))
  {
    var order := Preorder(q, scope, q.Names(scope), depth);
    assert q.Names(scope)[..|q.Names(scope)|] == q.Names(scope);
    WalkSorted(q, scope, |q.Names(scope)|, depth);
    HitsSorted(q, order);
    if WellFormed(q.tree) && Normal(q.root) {
      forall p | p in Hits(order)
        ensures Findable(q, scope, p)
      {
        HitsExactly(order, p);
        var e :| e in order && e.hit && e.path == p;
        HitShown(q, scope, q.Names(scope), depth, e);
        ShownExactly(q, scope, p);
      }
    }
  }

  // --- where no symlink is on the way --------------------------------------------

  /** The walk sees each step of the way to `p` as what it is. */
  ghost predicate SeenAlong(q: Query, p: Path) {
    p in q.tree
    && forall k :: 0 <= k < |p| ==>
         q.KindOf(p[..k], p[k]) == if k + 1 < |p| || q.tree[p] == Dir then Folder else Plain
  }

  lemma {:induction false} SeenWhereReal(q: Query, p: Path)
    requires WellFormed(q.tree) && Real(q.tree, p)
    ensures SeenAlong(q, p)
  {
    forall k | 0 <= k < |p|
      ensures q.KindOf(p[..k], p[k]) == if k + 1 < |p| || q.tree[p] == Dir then Folder else Plain
    {
      RealStep(q, p, k);
    }
  }

  lemma RealStep(q: Query, p: Path, k: nat)
    requires WellFormed(q.tree) && Real(q.tree, p) && k < |p|
    ensures q.KindOf(p[..k], p[k]) == if k + 1 < |p| || q.tree[p] == Dir then Folder else Plain
  {
    var dir, next := p[..k], p[..k + 1];
    assert next == dir + [p[k]];
    RealPrefix(q.tree, p, k);
    RealPrefix(q.tree, p, k + 1);
    assert [] + dir == dir;
    ResolveStays(q.tree, [], dir, MAX_LINKS);
    assert k + 1 == |p| ==> next == p;
  }

  lemma RealPrefix(t: Tree, p: Path, k: nat)
    requires WellFormed(t) && Real(t, p) && k <= |p|
    ensures Real(t, p[..k]) && (k < |p| ==> t[p[..k]] == Dir) && (k > 0 ==> !t[p[..k]].Link?)
  {
    forall j | 0 < j <= k
      ensures p[..k][..j] == p[..j]
    {}
    if k < |p| {
      assert Parent(p[..k + 1]) == p[..k];
    }
  }

  lemma {:induction false} ShownAlong(q: Query, p: Path, k: nat)
    requires SeenAlong(q, p) && k < |p|
    ensures Shown(q, p[..k], p[k..]) <==> q.matches(p[|p| - 1], q.tree[p] == Dir)
    decreases |p| - k
  {
    if k + 1 < |p| {
      assert p[..k] + [p[k]] == p[..k + 1] && p[k..][1..] == p[k + 1..];
      ShownAlong(q, p, k + 1);
    }
  }

  /** Where no symlink is on the way, what is shown is just what matches. */
  lemma RealShownExactly(q: Query, scope: Path, p: Path)
    requires WellFormed(q.tree) && Real(q.tree, p) && scope < p
    ensures ShownBelow(q, scope, p) <==> q.matches(p[|p| - 1], q.tree[p] == Dir)
  {
    assert p[..|scope|] == scope;
    SeenWhereReal(q, p);
    ShownAlong(q, p, |scope|);
  }

  /**
   * The results are the first `limit` matches, in walk order, among the
   * entries the scan budget reaches, and the flag says exactly when there may
   * be more. A search not flagged has found every matching entry of the tree
   * below the scope, and nothing else.
   */
  method SearchTree(q: Query, scopeAbs: Path) returns (hits: seq<Path>, truncated: bool)
    requires q.limit > 0
    ensures forall depth: nat :: depth >= q.maxScanned ==>
              var order := Preorder(q, scopeAbs, q.Names(scopeAbs), depth);
              && hits == Take(Hits(Scanned(q, order)), q.limit) && hits <= Hits(order)
              && (!truncated ==> hits == Hits(order))
              && (truncated <==> |Hits(order)| >= q.limit || |order| > q.maxScanned)
    ensures forall i, j :: 0 <= i < j < |hits| ==> Before(q, hits[i], hits[j])
    ensures WellFormed(q.tree) && Normal(q.root) ==> forall p :: p in hits ==> Findable(q, scopeAbs, p)
    ensures !truncated && WellFormed(q.tree) && Normal(q.root) && Enumerates(q) ==>
              forall p :: p in hits <==> Findable(q, scopeAbs, p)
  {
    var s := new Searcher(q);
    s.Walk(scopeAbs, q.maxScanned);
    hits, truncated := s.hits, s.truncated;
    forall depth: nat | depth >= q.maxScanned
      ensures var order := Preorder(q, scopeAbs, q.Names(scopeAbs), depth);
              && hits == Take(Hits(Scanned(q, order)), q.limit) && hits <= Hits(order)
              && (!truncated ==> hits == Hits(order))
              && (truncated <==> |Hits(order)| >= q.limit || |order| > q.maxScanned)
    {
      DepthIrrelevant(q, Progress([], 0, false), scopeAbs, q.Names(scopeAbs), q.maxScanned, depth);
      ExamineExactly(q, Preorder(q, scopeAbs, q.Names(scopeAbs), depth));
      FoundExactly(q, Preorder(q, scopeAbs, q.Names(scopeAbs), depth));
    }
    ResultsFindable(q, scopeAbs, q.maxScanned);
    if !truncated && WellFormed(q.tree) && Normal(q.root) && Enumerates(q) {
      forall p
        ensures p in hits <==> Findable(q, scopeAbs, p)
      {
        CompleteExactly(q, scopeAbs, p);
        ShownExactly(q, scopeAbs, p);
      }
    }
  }

  // --- nothing outside the root --------------------------------------------------

  /** A path that leads, symlinks followed, to a place inside the root. */
  ghost predicate LeadsInside(q: Query, p: Path) {
    Realpath(q.tree, p).Ok? && q.root <= Realpath(q.tree, p).value
  }

  lemma EntryLeadsInside(q: Query, dir: Path, name: Name)
    requires WellFormed(q.tree) && Normal(q.root) && q.root != [] && LeadsInside(q, dir)
    requires q.KindOf(dir, name) != Skipped
    ensures LeadsInside(q, dir + [name])
  {
    var at := Realpath(q.tree, dir).value + [name];
    if q.tree[at].Link? {
      var target := Realpath(q.tree, dir + [name]).value;
      RealpathReal(q.tree, dir + [name]);
      IsInsideExactly(q.root, target);
    } else {
      ResolveSplit(q.tree, [], dir, [name], MAX_LINKS);
      assert Parent(at) == Realpath(q.tree, dir).value;
    }
  }

  lemma {:induction false} WalkLeadsInside(q: Query, dir: Path, names: seq<Name>, depth: nat)
    requires WellFormed(q.tree) && Normal(q.root) && q.root != [] && LeadsInside(q, dir)
    ensures forall e :: e in Preorder(q, dir, names, depth) && e.kind != Skipped ==> LeadsInside(q, e.path)
    decreases depth, |names|
  {
    if names != [] {
      WalkLeadsInside(q, dir, names[..|names| - 1], depth);
      var e := q.EntryOf(dir, names[|names| - 1]);
      if e.kind != Skipped {
        EntryLeadsInside(q, dir, names[|names| - 1]);
        if e.kind == Folder && depth > 0 {
          WalkLeadsInside(q, e.path, q.Names(e.path), depth - 1);
        }
      }
    }
  }

  /** Every result of a search started inside the root leads to a place inside the root. */
  lemma SearchStaysInside(q: Query, scope: Path, depth: nat, p: Path)
    requires WellFormed(q.tree) && Normal(q.root) && q.root != [] && LeadsInside(q, scope)
    requires p in Hits(Preorder(q, scope, q.Names(scope), depth))
    ensures LeadsInside(q, p)
  {
    var entries := Preorder(q, scope, q.Names(scope), depth);
    WalkLeadsInside(q, scope, q.Names(scope), depth);
    HitsExactly(entries, p);
    var e :| e in entries && e.hit && e.path == p;
    HitsCount(q, scope, q.Names(scope), depth, e);
  }

  lemma {:induction false} HitsCount(q: Query, dir: Path, names: seq<Name>, depth: nat, e: Entry)
    requires e in Preorder(q, dir, names, depth) && e.hit
    ensures e.kind != Skipped
    decreases depth, |names|
  {
    var init, here := names[..|names| - 1], q.EntryOf(dir, names[|names| - 1]);
    if e in Preorder(q, dir, init, depth) {
      HitsCount(q, dir, init, depth, e);
    } else if e != here {
      HitsCount(q, here.path, q.Names(here.path), depth - 1, e);
    }
  }
}
