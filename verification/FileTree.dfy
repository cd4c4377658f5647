/** A file tree with symlinks, and path resolution inside a shared root (src/server/browse.ts). */
module FileTree {
  import opened Bytes
  import opened Paths

  /** A symlink holds the absolute, normalised path it points to. */
  datatype Node = Dir | File(data: seq<Byte>) | Link(target: Path)

  type Tree = map<Path, Node>

  /** The directory that holds `p`. */
  function Parent(p: Path): Path
    requires p != []
  {
    p[..|p| - 1]
  }

  /** Every entry sits in a directory, and names are single components. */
  ghost predicate WellFormed(t: Tree) {
    && [] in t && t[[]] == Dir
    && (forall p {:trigger Parent(p)} :: p in t && p != [] ==> Parent(p) in t && t[Parent(p)] == Dir)
    && (forall p :: p in t ==> Normal(p))
    && (forall p :: p in t && t[p].Link? ==> Normal(t[p].target))
  }

  /** An entry of the tree that no symlink lies on the way to, itself included. */
  ghost predicate Real(t: Tree, p: Path) {
    p in t && forall k :: 0 < k <= |p| ==> p[..k] in t && !t[p[..k]].Link?
  }

  datatype FsError = NoEnt | NotDir | Loop | Invalid | CrossDevice | Denied

  /** The kernel gives up after this many symlinks on one path. */
  const MAX_LINKS: nat := 40

  /** Resolving `todo` from the real directory `cur`; the result says how many symlinks may still follow. */
  function Resolve(t: Tree, cur: Path, todo: Path, links: nat): Result<(Path, nat), FsError>
    decreases links, |todo|
  {
    if todo == [] then Ok((cur, links))
    else
      var next := cur + [todo[0]];
      if cur !in t then Err(NoEnt)
      else if t[cur] != Dir then Err(NotDir)
      else if next !in t then Err(NoEnt)
      else
        match t[next]
        case Link(target) => if links == 0 then Err(Loop) else Resolve(t, [], target + todo[1..], links - 1)
        case _ => Resolve(t, next, todo[1..], links)
  }

  function Realpath(t: Tree, p: Path): Result<Path, FsError> {
    match Resolve(t, [], p, MAX_LINKS)
    case Ok(r) => Ok(r.0)
    case Err(e) => Err(e)
  }

  lemma RealChild(t: Tree, cur: Path, name: Name)
    requires Real(t, cur) && cur + [name] in t && !t[cur + [name]].Link?
    ensures Real(t, cur + [name])
  {
    forall k | 0 < k <= |cur| + 1
      ensures (cur + [name])[..k] in t && !t[(cur + [name])[..k]].Link?
    {
      if k <= |cur| {
        assert (cur + [name])[..k] == cur[..k];
      } else {
        assert (cur + [name])[..k] == cur + [name];
      }
    }
  }

  /** What `realpath` returns exists and crosses no symlink. */
  lemma {:induction false} ResolveReal(t: Tree, cur: Path, todo: Path, links: nat)
    requires WellFormed(t) && Real(t, cur)
    ensures var r := Resolve(t, cur, todo, links);
            r.Ok? ==> Real(t, r.value.0) && r.value.1 <= links
    decreases links, |todo|
  {
    if todo != [] && t[cur] == Dir && cur + [todo[0]] in t {
      if t[cur + [todo[0]]].Link? {
        ResolveAtLink(t, cur, todo, links);
        if links > 0 {
          RootIsReal(t);
          ResolveReal(t, [], t[cur + [todo[0]]].target + todo[1..], links - 1);
        }
      } else {
        ResolveAtPlain(t, cur, todo, links);
        RealChild(t, cur, todo[0]);
        ResolveReal(t, cur + [todo[0]], todo[1..], links);
      }
    }
  }

  lemma ResolveAtPlain(t: Tree, cur: Path, todo: Path, links: nat)
    requires cur in t && t[cur] == Dir
    requires todo != [] && cur + [todo[0]] in t && !t[cur + [todo[0]]].Link?
    ensures Resolve(t, cur, todo, links) == Resolve(t, cur + [todo[0]], todo[1..], links)
  {}

  /** A path that crosses no symlink resolves to itself. */
  lemma {:induction false} ResolveStays(t: Tree, cur: Path, todo: Path, links: nat)
    requires WellFormed(t) && Real(t, cur + todo)
    ensures Resolve(t, cur, todo, links) == Ok((cur + todo, links))
    decreases |todo|
  {
    if todo == [] {
      assert cur + todo == cur;
    } else {
      var p, next := cur + todo, cur + [todo[0]];
      assert p[..|cur| + 1] == next;
      assert Parent(next) == cur;
      assert next + todo[1..] == p;
      ResolveStays(t, next, todo[1..], links);
    }
  }

  /** Resolving in two steps is resolving at once. */
  lemma {:induction false} ResolveSplit(t: Tree, cur: Path, a: Path, b: Path, links: nat)
    ensures Resolve(t, cur, a + b, links)
         == (match Resolve(t, cur, a, links)
             case Err(e) => Err(e)
             case Ok(r) => Resolve(t, r.0, b, r.1))
    decreases links, |a|
  {
    if a == [] {
      assert a + b == b;
    } else {
      var next := cur + [a[0]];
      assert (a + b)[0] == a[0] && (a + b)[1..] == a[1..] + b;
      if cur in t && t[cur] == Dir && next in t {
        match t[next]
        case Link(target) =>
          if links > 0 {
            assert target + (a[1..] + b) == (target + a[1..]) + b;
            ResolveSplit(t, [], target + a[1..], b, links - 1);
          }
        case _ => ResolveSplit(t, next, a[1..], b, links);
      }
    }
  }

  // --- what resolving comes to ---------------------------------------------------

  /** The first `k` components of `p` lead through directories to a symlink with this target. */
  ghost predicate FirstLink(t: Tree, p: Path, k: nat, target: Path) {
    0 < k <= |p| && p[..k] in t && t[p[..k]] == Link(target)
    && forall j :: 0 <= j < k ==> p[..j] in t && t[p[..j]] == Dir
  }

  /** `q` is `p` with its first symlink written out. */
  ghost predicate Expands(t: Tree, p: Path, q: Path) {
    exists k: nat, target: Path :: FirstLink(t, p, k, target) && q == target + p[k..]
  }

  /** Writing out the first symlink `n` times turns `p` into `r`, which has none. */
  ghost predicate LeadsTo(t: Tree, p: Path, n: nat, r: Path)
    decreases n
  {
    if n == 0 then p == r && Real(t, r) else exists q :: Expands(t, p, q) && LeadsTo(t, q, n - 1, r)
  }

  /** On a path with no symlink, all before the end are directories. */
  lemma RealDirs(t: Tree, p: Path, j: nat)
    requires WellFormed(t) && Real(t, p) && j < |p|
    ensures p[..j] in t && t[p[..j]] == Dir
  {
    assert Parent(p[..j + 1]) == p[..j];
  }

  lemma FirstLinkUnique(t: Tree, p: Path, k: nat, target: Path, k': nat, target': Path)
    requires FirstLink(t, p, k, target) && FirstLink(t, p, k', target')
    ensures k == k' && target == target'
  {}

  lemma ExpandsOnce(t: Tree, p: Path, q: Path, q': Path)
    requires Expands(t, p, q) && Expands(t, p, q')
    ensures q == q'
  {
    var k: nat, target: Path :| FirstLink(t, p, k, target) && q == target + p[k..];
    var k': nat, target': Path :| FirstLink(t, p, k', target') && q' == target' + p[k'..];
    FirstLinkUnique(t, p, k, target, k', target');
  }

  /** What resolution makes of `cur + todo`, for a real `cur`: repeated writing out of the first symlink. */
  lemma {:induction false} ResolveExactly(t: Tree, cur: Path, todo: Path, links: nat, r: Path, left: nat)
    requires WellFormed(t) && Real(t, cur) && left <= links
    ensures Resolve(t, cur, todo, links) == Ok((r, left)) <==> LeadsTo(t, cur + todo, links - left, r)
    decreases links, |todo|
  {
    var p := cur + todo;
    assert p[..|cur|] == cur;
    if todo == [] {
      assert p == cur;
      RealNeverExpands(t, cur);
    } else {
      var next := cur + [todo[0]];
      assert p[..|cur| + 1] == next;
      if t[cur] == Dir && next in t {
        if t[next].Link? {
          ResolveLink(t, cur, todo, links, r, left);
        } else {
          RealChild(t, cur, todo[0]);
          assert next + todo[1..] == p;
          ResolveExactly(t, next, todo[1..], links, r, left);
        }
      } else {
        StuckNeverLeads(t, cur, p, links - left, r);
      }
    }
  }

  lemma RealNeverExpands(t: Tree, p: Path)
    requires Real(t, p)
    ensures forall q :: !Expands(t, p, q)
  {}

  lemma ResolveLink(t: Tree, cur: Path, todo: Path, links: nat, r: Path, left: nat)
    requires WellFormed(t) && Real(t, cur) && left <= links && t[cur] == Dir
    requires todo != [] && cur + [todo[0]] in t && t[cur + [todo[0]]].Link?
    ensures Resolve(t, cur, todo, links) == Ok((r, left)) <==> LeadsTo(t, cur + todo, links - left, r)
    decreases links, |todo|, 0
  {
    var q := t[cur + [todo[0]]].target + todo[1..];
    LinkExpands(t, cur, todo);
    LeadsOn(t, cur + todo, q, links - left, r);
    ResolveAtLink(t, cur, todo, links);
    if links > 0 {
      RootIsReal(t);
      assert [] + q == q;
      if left < links {
        ResolveExactly(t, [], q, links - 1, r, left);
      } else {
        FewerLinks(t, [], q, links - 1);
      }
    }
  }

  lemma ResolveAtLink(t: Tree, cur: Path, todo: Path, links: nat)
    requires cur in t && t[cur] == Dir
    requires todo != [] && cur + [todo[0]] in t && t[cur + [todo[0]]].Link?
    ensures var q := t[cur + [todo[0]]].target + todo[1..];
            Resolve(t, cur, todo, links) == if links == 0 then Err(Loop) else Resolve(t, [], q, links - 1)
  {}

  /** A path whose first symlink is known leads where the path with that written out leads. */
  lemma LeadsOn(t: Tree, p: Path, q: Path, n: nat, r: Path)
    requires Expands(t, p, q) && !Real(t, p)
    ensures LeadsTo(t, p, n, r) <==> n > 0 && LeadsTo(t, q, n - 1, r)
  {
    forall q' | Expands(t, p, q')
      ensures q' == q
    {
      ExpandsOnce(t, p, q, q');
    }
  }

  lemma LinkExpands(t: Tree, cur: Path, todo: Path)
    requires WellFormed(t) && Real(t, cur) && t[cur] == Dir
    requires todo != [] && cur + [todo[0]] in t && t[cur + [todo[0]]].Link?
    ensures Expands(t, cur + todo, t[cur + [todo[0]]].target + todo[1..]) && !Real(t, cur + todo)
  {
    var p, target, k := cur + todo, t[cur + [todo[0]]].target, |cur| + 1;
    assert p[..k] == cur + [todo[0]] && p[k..] == todo[1..];
    forall j | 0 <= j < k
      ensures p[..j] in t && t[p[..j]] == Dir
    {
      if j == |cur| {
        assert p[..j] == cur;
      } else {
        assert p[..j] == cur[..j];
        RealDirs(t, cur, j);
      }
    }
    assert FirstLink(t, p, k, target);
  }

  lemma FewerLinks(t: Tree, cur: Path, todo: Path, links: nat)
    requires WellFormed(t) && Real(t, cur)
    ensures var r := Resolve(t, cur, todo, links); r.Ok? ==> r.value.1 <= links
  {
    ResolveReal(t, cur, todo, links);
  }

  /** A path that goes on below nothing or below no directory leads nowhere. */
  lemma StuckNeverLeads(t: Tree, cur: Path, p: Path, n: nat, r: Path)
    requires WellFormed(t) && Real(t, cur) && cur < p && p[..|cur|] == cur
    requires t[cur] != Dir || p[..|cur| + 1] !in t
    ensures !LeadsTo(t, p, n, r)
  {
    var next := p[..|cur| + 1];
    assert Parent(next) == cur;
    assert next !in t;
    assert !Real(t, p);
    assert forall j: nat :: j <= |cur| ==> p[..j] == cur[..j];
    assert forall k: nat, target: Path :: !FirstLink(t, p, k, target);
  }

  /**
   * `realpath` is repeated writing out of the first symlink until none is left,
   * at most 40 times.
   */
  lemma RealpathExactly(t: Tree, p: Path, r: Path)
    requires WellFormed(t)
    ensures Realpath(t, p) == Ok(r) <==> exists n: nat :: n <= MAX_LINKS && LeadsTo(t, p, n, r)
  {
    RootIsReal(t);
    assert [] + p == p;
    FewerLinks(t, [], p, MAX_LINKS);
    forall left: nat | left <= MAX_LINKS
      ensures Resolve(t, [], p, MAX_LINKS) == Ok((r, left)) <==> LeadsTo(t, p, MAX_LINKS - left, r)
    {
      ResolveExactly(t, [], p, MAX_LINKS, r, left);
    }
    if Realpath(t, p) == Ok(r) {
      var left := Resolve(t, [], p, MAX_LINKS).value.1;
      assert LeadsTo(t, p, MAX_LINKS - left, r);
    }
    if n: nat :| n <= MAX_LINKS && LeadsTo(t, p, n, r) {
      assert MAX_LINKS - (MAX_LINKS - n) == n;
      assert Resolve(t, [], p, MAX_LINKS) == Ok((r, MAX_LINKS - n));
    }
  }

  // --- resolving what a client asks for ------------------------------------------

  datatype Refused = BadRequest | Forbidden | NotFound | Conflict | Internal

  /** Some component of `abs` below `root` is missing or a symlink. */
  predicate CrossesSymlink(t: Tree, root: Path, abs: Path, k: nat)
    requires |root| <= k <= |abs|
    decreases |abs| - k
  {
    k < |abs|
    && (abs[..k + 1] !in t || t[abs[..k + 1]].Link? || CrossesSymlink(t, root, abs, k + 1))
  }

  function Mapped(e: FsError): Refused {
    if e == NoEnt || e == NotDir then NotFound else Internal
  }

  function ResolveInsideRoot(t: Tree, root: Path, relPath: string, followSymlinks: bool): Result<Path, Refused> {
    if '\0' in relPath then Err(BadRequest)
    else
      var abs := Lexical(root, relPath);
      if !IsInside(Render(root), Render(abs)) then Err(Forbidden)
      else if !followSymlinks && |root| <= |abs| && CrossesSymlink(t, root, abs, |root|) then Err(NotFound)
      else
        match Realpath(t, abs)
        case Err(e) => Err(Mapped(e))
        case Ok(target) => if IsInside(Render(root), Render(target)) then Ok(target) else Err(Forbidden)
  }

  lemma RootIsReal(t: Tree)
    requires WellFormed(t)
    ensures Real(t, [])
  {}

  lemma RealpathReal(t: Tree, p: Path)
    requires WellFormed(t) && Realpath(t, p).Ok?
    ensures Real(t, Realpath(t, p).value) && Normal(Realpath(t, p).value)
  {
    RootIsReal(t);
    ResolveReal(t, [], p, MAX_LINKS);
  }

  /** Whatever is returned exists, crosses no symlink, and lies inside the root component by component. */
  lemma ResolvedInside(t: Tree, root: Path, relPath: string, followSymlinks: bool)
    requires WellFormed(t) && Normal(root)
    requires ResolveInsideRoot(t, root, relPath, followSymlinks).Ok?
    ensures var p := ResolveInsideRoot(t, root, relPath, followSymlinks).value;
            root <= p && Real(t, p) && (root == [] ==> p == [])
  {
    var p := ResolveInsideRoot(t, root, relPath, followSymlinks).value;
    RealpathReal(t, Lexical(root, relPath));
    IsInsideExactly(root, p);
  }

  /** The request names the place `p`: inside the root as written and as resolved, on a way allowed. */
  ghost predicate PlaceAt(t: Tree, root: Path, relPath: string, followSymlinks: bool, p: Path) {
    var abs := Lexical(root, relPath);
    && '\0' !in relPath && Within(root, abs)
    && (followSymlinks || forall j :: |root| < j <= |abs| ==> abs[..j] in t && !t[abs[..j]].Link?)
    && Realpath(t, abs) == Ok(p) && Within(root, p)
  }

  /** A request succeeds exactly with the place it names, and escapes are forbidden. */
  lemma ResolveInsideExactly(t: Tree, root: Path, relPath: string, followSymlinks: bool, p: Path)
    requires WellFormed(t) && Normal(root)
    ensures ResolveInsideRoot(t, root, relPath, followSymlinks) == Ok(p)
            <==> PlaceAt(t, root, relPath, followSymlinks, p)
    ensures '\0' in relPath <==> ResolveInsideRoot(t, root, relPath, followSymlinks) == Err(BadRequest)
    ensures '\0' !in relPath && !Within(root, Lexical(root, relPath))
            ==> ResolveInsideRoot(t, root, relPath, followSymlinks) == Err(Forbidden)
    ensures '\0' !in relPath && Within(root, Lexical(root, relPath)) && followSymlinks
            && Realpath(t, Lexical(root, relPath)) == Ok(p) && !Within(root, p)
            ==> ResolveInsideRoot(t, root, relPath, followSymlinks) == Err(Forbidden)
  {
    var abs := Lexical(root, relPath);
    LexicalNormal(root, relPath);
    IsInsideExactly(root, abs);
    if |root| <= |abs| {
      NoSymlinkExactly(t, root, abs, |root|);
    }
    if Realpath(t, abs).Ok? {
      RealpathReal(t, abs);
      IsInsideExactly(root, Realpath(t, abs).value);
    }
  }

  /** A path that goes on below no entry or below a file is not found, with symlinks on or off. */
  lemma MissingNotFound(t: Tree, root: Path, relPath: string, followSymlinks: bool, k: nat)
    requires WellFormed(t) && Normal(root) && root != [] && '\0' !in relPath
    requires var abs := Lexical(root, relPath);
             |root| <= k < |abs| && root <= abs && Real(t, abs[..k]) && abs[..k + 1] !in t
    ensures ResolveInsideRoot(t, root, relPath, followSymlinks) == Err(NotFound)
  {
    var abs := Lexical(root, relPath);
    LexicalNormal(root, relPath);
    IsInsideExactly(root, abs);
    NoSymlinkExactly(t, root, abs, |root|);
    ResolveSplit(t, [], abs[..k], abs[k..], MAX_LINKS);
    assert abs[..k] + abs[k..] == abs && [] + abs[..k] == abs[..k];
    ResolveStays(t, [], abs[..k], MAX_LINKS);
    assert abs[..k] + [abs[k..][0]] == abs[..k + 1];
  }

  lemma {:induction false} NoSymlinkExactly(t: Tree, root: Path, abs: Path, k: nat)
    requires |root| <= k <= |abs|
    ensures !CrossesSymlink(t, root, abs, k)
            <==> forall j :: k < j <= |abs| ==> abs[..j] in t && !t[abs[..j]].Link?
    decreases |abs| - k
  {
    if k < |abs| {
      NoSymlinkExactly(t, root, abs, k + 1);
    }
  }

  /**
   * With symlinks switched off, a request succeeds exactly when the lexical
   * path is inside the root and nothing on the way to it from the root is
   * missing or a symlink, and then the result is that path.
   */
  lemma WithoutSymlinksExactly(t: Tree, root: Path, relPath: string)
    requires WellFormed(t) && Real(t, root) && root != [] && '\0' !in relPath
    ensures var abs, r := Lexical(root, relPath), ResolveInsideRoot(t, root, relPath, false);
            && (r.Ok? <==> root <= abs && Real(t, abs))
            && (r.Ok? ==> r.value == abs)
  {
    var abs := Lexical(root, relPath);
    LexicalNormal(root, relPath);
    IsInsideExactly(root, abs);
    if root <= abs {
      NoSymlinkExactly(t, root, abs, |root|);
      if Real(t, abs) {
        assert [] + abs == abs;
        ResolveStays(t, [], abs, MAX_LINKS);
      } else if !CrossesSymlink(t, root, abs, |root|) {
        RealFromRoot(t, root, abs);
      }
    }
  }

  lemma RealFromRoot(t: Tree, root: Path, abs: Path)
    requires Real(t, root) && root <= abs
    requires forall j :: |root| < j <= |abs| ==> abs[..j] in t && !t[abs[..j]].Link?
    ensures Real(t, abs)
  {
    forall k | 0 < k <= |abs|
      ensures abs[..k] in t && !t[abs[..k]].Link?
    {
      if k <= |root| {
        assert abs[..k] == root[..k];
      }
    }
    assert abs[..|abs|] == abs;
    assert abs == root || |root| < |abs|;
  }

  // --- targets of a change -------------------------------------------------------

  predicate IsDirectory(t: Tree, p: Path) {
    p in t && t[p] == Dir
  }

  /** A destination: its parent must resolve to a directory; the entry itself is not looked at. */
  function ResolveNew(t: Tree, root: Path, relPath: string, followSymlinks: bool): Result<Path, Refused> {
    if '\0' in relPath then Err(BadRequest)
    else
      var (parentRel, name) := SplitParentAndName(relPath);
      if !IsValidEntryName(name) then Err(BadRequest)
      else
        match ResolveInsideRoot(t, root, parentRel, followSymlinks)
        case Err(e) => Err(e)
        case Ok(parent) => if IsDirectory(t, parent) then Ok(parent + [name]) else Err(BadRequest)
  }

  /** An existing entry, the last segment not followed if it is a symlink. */
  function ResolveEntry(t: Tree, root: Path, relPath: string, followSymlinks: bool): Result<Path, Refused> {
    if '\0' in relPath then Err(BadRequest)
    else
      var (parentRel, name) := SplitParentAndName(relPath);
      if name == "" then ResolveInsideRoot(t, root, parentRel, followSymlinks)
      else if !IsValidEntryName(name) then Err(BadRequest)
      else
        match ResolveInsideRoot(t, root, parentRel, followSymlinks)
        case Err(e) => Err(e)
        case Ok(parent) =>
          var abs := parent + [name];
          if abs !in t then Err(NotFound)
          else if !followSymlinks && t[abs].Link? then Err(NotFound)
          else Ok(abs)
  }

  /** A change acts on an entry inside the root, held by a real directory inside the root. */
  lemma EntryInside(t: Tree, root: Path, relPath: string, followSymlinks: bool)
    requires WellFormed(t) && Normal(root) && ResolveEntry(t, root, relPath, followSymlinks).Ok?
    ensures var p := ResolveEntry(t, root, relPath, followSymlinks).value;
            p in t && root <= p && Normal(p) && (p != root ==> Real(t, Parent(p)) && root <= Parent(p))
  {
    var (parentRel, name) := SplitParentAndName(relPath);
    var p := ResolveEntry(t, root, relPath, followSymlinks).value;
    ResolvedInside(t, root, parentRel, followSymlinks);
    if name != "" {
      var parent := ResolveInsideRoot(t, root, parentRel, followSymlinks).value;
      assert Parent(p) == parent;
    } else if p != root {
      RealParent(t, p);
      assert root <= Parent(p);
    }
  }

  lemma RealParent(t: Tree, p: Path)
    requires WellFormed(t) && Real(t, p) && p != []
    ensures Real(t, Parent(p))
  {
    forall k | 0 < k <= |p| - 1
      ensures Parent(p)[..k] in t && !t[Parent(p)[..k]].Link?
    {
      assert Parent(p)[..k] == p[..k];
    }
  }

  lemma NewInside(t: Tree, root: Path, relPath: string, followSymlinks: bool)
    requires WellFormed(t) && Normal(root) && ResolveNew(t, root, relPath, followSymlinks).Ok?
    ensures var p := ResolveNew(t, root, relPath, followSymlinks).value;
            && p != [] && Normal(p) && root <= Parent(p) && IsDirectory(t, Parent(p)) && Real(t, Parent(p))
  {
    var (parentRel, name) := SplitParentAndName(relPath);
    ResolvedInside(t, root, parentRel, followSymlinks);
    var parent := ResolveInsideRoot(t, root, parentRel, followSymlinks).value;
    var p := parent + [name];
    assert Parent(p) == parent;
  }

  // --- which entry a change acts on ----------------------------------------------

  /**
   * The entry a request names: its last segment, taken as it stands, in the
   * place the rest names. A request without a name means the root.
   */
  ghost predicate EntryAt(t: Tree, root: Path, relPath: string, followSymlinks: bool, p: Path) {
    var (parentRel, name) := SplitParentAndName(relPath);
    && '\0' !in relPath
    && (if name == "" then PlaceAt(t, root, parentRel, followSymlinks, p)
        else
          && IsValidEntryName(name) && p != [] && p[|p| - 1] == name
          && PlaceAt(t, root, parentRel, followSymlinks, Parent(p))
          && p in t && (followSymlinks || !t[p].Link?))
  }

  /** The destination a request names: its last segment in the directory the rest names. */
  ghost predicate NewAt(t: Tree, root: Path, relPath: string, followSymlinks: bool, p: Path) {
    var (parentRel, name) := SplitParentAndName(relPath);
    && '\0' !in relPath && IsValidEntryName(name) && p != [] && p[|p| - 1] == name
    && PlaceAt(t, root, parentRel, followSymlinks, Parent(p)) && IsDirectory(t, Parent(p))
  }

  lemma Appended(parent: Path, name: Name, p: Path)
    ensures p == parent + [name] <==> p != [] && p[|p| - 1] == name && Parent(p) == parent
  {
    if p != [] {
      assert p == Parent(p) + [p[|p| - 1]];
    }
  }

  lemma ResolveEntryExactly(t: Tree, root: Path, relPath: string, followSymlinks: bool, p: Path)
    requires WellFormed(t) && Normal(root)
    ensures ResolveEntry(t, root, relPath, followSymlinks) == Ok(p) <==> EntryAt(t, root, relPath, followSymlinks, p)
  {
    var (parentRel, name) := SplitParentAndName(relPath);
    if name == "" {
      ResolveInsideExactly(t, root, parentRel, followSymlinks, p);
    } else {
      var r := ResolveInsideRoot(t, root, parentRel, followSymlinks);
      if r.Ok? {
        Appended(r.value, name, p);
        ResolveInsideExactly(t, root, parentRel, followSymlinks, r.value);
      }
      if p != [] {
        ResolveInsideExactly(t, root, parentRel, followSymlinks, Parent(p));
      }
    }
  }

  lemma ResolveNewExactly(t: Tree, root: Path, relPath: string, followSymlinks: bool, p: Path)
    requires WellFormed(t) && Normal(root)
    ensures ResolveNew(t, root, relPath, followSymlinks) == Ok(p) <==> NewAt(t, root, relPath, followSymlinks, p)
  {
    var (parentRel, name) := SplitParentAndName(relPath);
    var r := ResolveInsideRoot(t, root, parentRel, followSymlinks);
    if r.Ok? {
      Appended(r.value, name, p);
      ResolveInsideExactly(t, root, parentRel, followSymlinks, r.value);
    }
    if p != [] {
      ResolveInsideExactly(t, root, parentRel, followSymlinks, Parent(p));
    }
  }

  /** The place a real path below the root is spelled by is that path, with symlinks on or off. */
  lemma RealPlace(t: Tree, root: Path, rel: string, below: Path, followSymlinks: bool)
    requires WellFormed(t) && root != [] && Real(t, root + below)
    requires '\0' !in rel && Lexical(root, rel) == root + below
    ensures PlaceAt(t, root, rel, followSymlinks, root + below)
  {
    assert [] + (root + below) == root + below;
    ResolveStays(t, [], root + below, MAX_LINKS);
  }

  /**
   * Any spelling of names `cs` below the root names just that entry, if it
   * exists and no symlink is on the way to it; and as a destination just that
   * place, if a directory is to hold it.
   */
  lemma SpelledExactly(t: Tree, root: Path, relPath: string, cs: Path, followSymlinks: bool)
    requires WellFormed(t) && Normal(root) && root != [] && Spells(relPath, cs)
    requires Real(t, root + cs[..|cs| - 1])
    ensures var p := root + cs;
            && (p in t && (followSymlinks || !t[p].Link?)
                <==> ResolveEntry(t, root, relPath, followSymlinks) == Ok(p))
            && (!(p in t && (followSymlinks || !t[p].Link?))
                ==> ResolveEntry(t, root, relPath, followSymlinks) == Err(NotFound))
            && (IsDirectory(t, root + cs[..|cs| - 1]) <==> ResolveNew(t, root, relPath, followSymlinks) == Ok(p))
            && (!IsDirectory(t, root + cs[..|cs| - 1])
                ==> ResolveNew(t, root, relPath, followSymlinks) == Err(BadRequest))
  {
    var p, init := root + cs, cs[..|cs| - 1];
    var rel := Joined(init);
    SpellingSplits(relPath, cs);
    ParentSpelled(root, cs);
    assert cs[|cs| - 1] in cs;
    assert Parent(p) == root + init;
    if init != [] {
      assert ValidNames(init);
      NoNul(init);
    }
    RealPlace(t, root, rel, init, followSymlinks);
    ResolveInsideExactly(t, root, rel, followSymlinks, root + init);
    assert p == (root + init) + [cs[|cs| - 1]];
    ResolveEntryExactly(t, root, relPath, followSymlinks, p);
    ResolveNewExactly(t, root, relPath, followSymlinks, p);
  }
}
