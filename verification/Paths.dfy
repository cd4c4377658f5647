/** Path strings and their components: the lexical half of src/server/browse.ts. */
module Paths {

  type Name = string

  /** An absolute, normalised path as its components; [] is "/". */
  type Path = seq<Name>

  const SEP: char := '/'

  predicate IsComponent(c: Name) {
    c != "" && SEP !in c
  }

  predicate Normal(p: Path) {
    forall c :: c in p ==> IsComponent(c) && c != "." && c != ".."
  }

  function Tail(p: Path): string {
    if p == [] then "" else [SEP] + p[0] + Tail(p[1..])
  }

  /** The string the code handles for a path. */
  function Render(p: Path): string {
    if p == [] then [SEP] else Tail(p)
  }

  predicate IsInside(root: string, candidate: string) {
    candidate == root || root + [SEP] <= candidate
  }

  predicate EmptyOrSep(s: string) {
    s == "" || s[0] == SEP
  }

  /** The part of a string before its first separator. */
  function UpToSep(s: string): string {
    if s == "" || s[0] == SEP then "" else [s[0]] + UpToSep(s[1..])
  }

  lemma {:induction false} UpToSepExact(c: Name, x: string)
    requires SEP !in c && EmptyOrSep(x)
    ensures UpToSep(c + x) == c
  {
    if c == "" {
      assert c + x == x;
    } else {
      assert (c + x)[1..] == c[1..] + x;
      UpToSepExact(c[1..], x);
    }
  }

  /** A string splits at its first separator in one way only. */
  lemma FirstComponent(c: Name, d: Name, x: string, y: string)
    requires SEP !in c && SEP !in d && EmptyOrSep(x) && EmptyOrSep(y)
    requires c + x == d + y
    ensures c == d && x == y
  {
    UpToSepExact(c, x);
    UpToSepExact(d, y);
    assert (c + x)[|c|..] == x && (d + y)[|d|..] == y;
  }

  lemma TailEmptyOrSep(p: Path)
    ensures EmptyOrSep(Tail(p))
  {}

  lemma TailThen(p: Path, t: string)
    requires EmptyOrSep(t)
    ensures EmptyOrSep(Tail(p) + t)
  {
    if p == [] {
      assert Tail(p) + t == t;
    } else {
      assert (Tail(p) + t)[0] == SEP;
    }
  }

  lemma {:induction false} TailConcat(a: Path, b: Path)
    ensures Tail(a + b) == Tail(a) + Tail(b)
  {
    if a == [] {
      assert a + b == b;
    } else {
      assert (a + b)[1..] == a[1..] + b;
      TailConcat(a[1..], b);
    }
  }

  /** A path string that continues another at a separator continues its components. */
  lemma {:induction false} TailPrefix(a: Path, b: Path, t: string)
    requires Normal(a) && Normal(b) && EmptyOrSep(t) && Tail(a) + t == Tail(b)
    ensures a <= b
  {
    if a != [] {
      NormalRest(a);
      TailStep(a, t);
      assert b != [];
      NormalRest(b);
      TailStep(b, "");
      assert Tail(b) + "" == Tail(b) && Tail(b[1..]) + "" == Tail(b[1..]);
      var x, y := Tail(a[1..]) + t, Tail(b[1..]);
      assert ([SEP] + (a[0] + x))[1..] == a[0] + x && ([SEP] + (b[0] + y))[1..] == b[0] + y;
      TailThen(a[1..], t);
      TailEmptyOrSep(b[1..]);
      FirstComponent(a[0], b[0], x, y);
      TailPrefix(a[1..], b[1..], t);
      assert a == [a[0]] + a[1..] && b == [b[0]] + b[1..];
    }
  }

  lemma NormalRest(p: Path)
    requires Normal(p) && p != []
    ensures Normal(p[1..]) && IsComponent(p[0])
  {
    assert p[0] in p;
    forall c | c in p[1..]
      ensures c in p
    {}
  }

  lemma TailStep(p: Path, t: string)
    requires p != []
    ensures Tail(p) + t == [SEP] + (p[0] + (Tail(p[1..]) + t))
  {}

  /**
   * The string test is the component test for every root but "/"; under "/"
   * it accepts only "/" itself.
   */
  lemma IsInsideExactly(root: Path, p: Path)
    requires Normal(root) && Normal(p)
    ensures IsInside(Render(root), Render(p)) <==> Within(root, p)
  {
    if root == [] {
      if p != [] {
        assert p[0] in p && p[0] != "";
        assert Tail(p) == [SEP] + (p[0] + Tail(p[1..]));
        assert Tail(p)[1] == p[0][0];
      }
    } else if root <= p {
      TailConcat(root, p[|root|..]);
      assert root + p[|root|..] == p;
      TailEmptyOrSep(p[|root|..]);
    } else {
      NotInside(root, p);
    }
  }

  /** What that test accepts, component by component. */
  predicate Within(root: Path, p: Path) {
    if root == [] then p == [] else root <= p
  }

  lemma NotInside(root: Path, p: Path)
    requires Normal(root) && Normal(p) && root != [] && !(root <= p)
    ensures !IsInside(Render(root), Render(p))
  {
    var r, c := Render(root), Render(p);
    assert root[0] in root && root[0] != "";
    if p == [] {
      assert |c| == 1 && |r| >= 2;
    } else if IsInside(r, c) {
      var t := c[|r|..];
      assert r + t == c;
      assert EmptyOrSep(t);
      TailPrefix(root, p, t);
    }
  }

  // --- client-supplied paths -----------------------------------------------------

  predicate IsSlash(c: char) {
    c == '/' || c == '\\'
  }

  function DropLeading(s: string): string {
    if s != "" && IsSlash(s[0]) then DropLeading(s[1..]) else s
  }

  function DropTrailing(s: string): string {
    if s != "" && IsSlash(s[|s| - 1]) then DropTrailing(s[..|s| - 1]) else s
  }

  /** The pieces of a string between separators. */
  function Split(s: string): (parts: seq<string>)
    ensures |parts| > 0 && forall c :: c in parts ==> SEP !in c
    decreases |s|
  {
    if s == "" then [""]
    else
      var rest := Split(s[1..]);
      if s[0] == SEP then [""] + rest else [[s[0]] + rest[0]] + rest[1..]
  }

  /** How `path.resolve` walks from an absolute path along relative segments. */
  function Walked(from: Path, segments: seq<string>): Path {
    if segments == [] then from
    else
      var at, c := Walked(from, segments[..|segments| - 1]), segments[|segments| - 1];
      if c == "" || c == "." then at
      else if c == ".." then (if at == [] then [] else at[..|at| - 1])
      else at + [c]
  }

  lemma {:induction false} WalkedNormal(from: Path, segments: seq<string>)
    requires Normal(from) && forall c :: c in segments ==> SEP !in c
    ensures Normal(Walked(from, segments))
  {
    if segments != [] {
      WalkedNormal(from, segments[..|segments| - 1]);
    }
  }

  /** The absolute path the client's relative one names, symlinks aside. */
  function Lexical(root: Path, relPath: string): Path {
    Walked(root, Split(DropLeading(relPath)))
  }

  lemma LexicalNormal(root: Path, relPath: string)
    requires Normal(root)
    ensures Normal(Lexical(root, relPath))
  {
    WalkedNormal(root, Split(DropLeading(relPath)));
  }

  // --- what a client's path means ------------------------------------------------

  /** Segments with a slash between each two. */
  function Joined(cs: seq<string>): string {
    if cs == [] then ""
    else if |cs| == 1 then cs[0]
    else Joined(cs[..|cs| - 1]) + [SEP] + cs[|cs| - 1]
  }

  predicate AllSlashes(s: string) {
    forall c :: c in s ==> IsSlash(c)
  }

  lemma {:induction false} SplitPlain(c: string)
    requires SEP !in c
    ensures Split(c) == [c]
  {
    if c != "" {
      SplitPlain(c[1..]);
      assert [c[0]] + c[1..] == c;
    }
  }

  lemma {:induction false} SplitAppend(a: string, c: string)
    requires SEP !in c
    ensures Split(a + [SEP] + c) == Split(a) + [c]
  {
    if a == "" {
      SplitPlain(c);
      assert a + [SEP] + c == [SEP] + c;
      assert ([SEP] + c)[1..] == c;
    } else {
      SplitAppend(a[1..], c);
      assert (a + [SEP] + c)[1..] == a[1..] + [SEP] + c;
      var rest := Split(a[1..]);
      assert (rest + [c])[0] == rest[0] && (rest + [c])[1..] == rest[1..] + [c];
    }
  }

  /** Splitting gives the segments back. */
  lemma {:induction false} SplitJoined(cs: seq<string>)
    requires cs != [] && forall c :: c in cs ==> SEP !in c
    ensures Split(Joined(cs)) == cs
  {
    if |cs| == 1 {
      SplitPlain(cs[0]);
    } else {
      SplitJoined(cs[..|cs| - 1]);
      SplitAppend(Joined(cs[..|cs| - 1]), cs[|cs| - 1]);
    }
  }

  /** Walking segment by segment: further ones are walked from where the first have led. */
  lemma {:induction false} WalkedOn(from: Path, a: seq<string>, b: seq<string>)
    ensures Walked(from, a + b) == Walked(Walked(from, a), b)
    decreases |b|
  {
    if b == [] {
      assert a + b == a;
    } else {
      assert (a + b)[..|a + b| - 1] == a + b[..|b| - 1];
      WalkedOn(from, a, b[..|b| - 1]);
    }
  }

  lemma {:induction false} WalkedPlain(from: Path, cs: Path)
    requires Normal(cs)
    ensures Walked(from, cs) == from + cs
  {
    if cs != [] {
      var init, last := cs[..|cs| - 1], cs[|cs| - 1];
      assert last in cs;
      WalkedPlain(from, init);
      assert from + cs == (from + init) + [last];
    }
  }

  /**
   * What segments do wherever they stand: empty and "." ones nothing, ".." takes
   * a component back that was just entered, and from "/" leads nowhere.
   */
  lemma WalkedLaws(from: Path, a: seq<string>, c: Name, b: seq<string>)
    requires IsComponent(c) && c != "." && c != ".."
    ensures Walked(from, a + [""] + b) == Walked(from, a + b) == Walked(from, a + ["."] + b)
    ensures Walked(from, a + [c, ".."] + b) == Walked(from, a + b)
    ensures Walked([], [".."] + b) == Walked([], b)
    ensures Walked(from + [c], [".."] + b) == Walked(from, b)
  {
    WalkedOn(from, a, b);
    WalkedOn(from, a + [""], b);
    WalkedOn(from, a, [""]);
    WalkedOn(from, a + ["."], b);
    WalkedOn(from, a, ["."]);
    WalkedOn(from, a + [c, ".."], b);
    WalkedOn(from, a, [c, ".."]);
    WalkedOn([], [".."], b);
    WalkedOn(from + [c], [".."], b);
    var at := Walked(from, a);
    WalkedOne(at, "");
    WalkedOne(at, ".");
    WalkedOne(at, c);
    WalkedOn(at, [c], [".."]);
    assert [c] + [".."] == [c, ".."];
    WalkedOne(at + [c], "..");
    WalkedOne([], "..");
    WalkedOne(from + [c], "..");
    assert (at + [c])[..|at|] == at && (from + [c])[..|from|] == from;
  }

  lemma WalkedOne(at: Path, c: string)
    ensures Walked(at, [c]) == if c == "" || c == "." then at
                               else if c == ".." then (if at == [] then [] else at[..|at| - 1]) else at + [c]
  {
    assert [c][..0] == [];
  }

  lemma {:induction false} DropLeadingOf(l: string, s: string)
    requires AllSlashes(l) && (s == "" || !IsSlash(s[0]))
    ensures DropLeading(l + s) == s
  {
    if l == "" {
      assert l + s == s;
    } else {
      assert (l + s)[1..] == l[1..] + s;
      DropLeadingOf(l[1..], s);
    }
  }

  lemma {:induction false} DropTrailingOf(s: string, r: string)
    requires AllSlashes(r) && (s == "" || !IsSlash(s[|s| - 1]))
    ensures DropTrailing(s + r) == s
    decreases |r|
  {
    if r == "" {
      assert s + r == s;
    } else {
      assert (s + r)[..|s + r| - 1] == s + r[..|r| - 1];
      DropTrailingOf(s, r[..|r| - 1]);
    }
  }

  /** The absolute path of any segments, slashes in front or not: the walk along them. */
  lemma LexicalExactly(root: Path, l: string, cs: seq<string>)
    requires AllSlashes(l) && cs != [] && (forall c :: c in cs ==> SEP !in c)
    requires cs == [""] || (cs[0] != "" && !IsSlash(cs[0][0]))
    ensures Lexical(root, l + Joined(cs)) == Walked(root, cs)
    ensures Normal(cs) ==> Lexical(root, l + Joined(cs)) == root + cs
  {
    JoinedStart(cs);
    DropLeadingOf(l, Joined(cs));
    SplitJoined(cs);
    if Normal(cs) {
      WalkedPlain(root, cs);
    }
  }

  lemma {:induction false} JoinedStart(cs: seq<string>)
    requires cs != []
    ensures cs[0] != "" ==> Joined(cs) != "" && Joined(cs)[0] == cs[0][0]
    ensures cs == [""] ==> Joined(cs) == ""
  {
    if |cs| > 1 {
      JoinedStart(cs[..|cs| - 1]);
    }
  }

  predicate IsValidEntryName(name: string) {
    name != "" && name != "." && name != ".." && '/' !in name && '\\' !in name && '\0' !in name
  }

  /** A valid name is not empty, "." or "..", and holds no slash of either kind and no NUL; any such name is valid. */
  lemma ValidNameExactly(name: string)
    ensures IsValidEntryName(name)
            <==> |name| > 0 && name != "." && name != ".." && forall c :: c in name ==> !IsSlash(c) && c != '\0'
  {}

  /** The index past the last slash of either kind, 0 when there is none. */
  function PastLastSlash(s: string): (i: nat)
    ensures i <= |s|
    ensures i > 0 ==> IsSlash(s[i - 1])
    ensures forall k :: i <= k < |s| ==> !IsSlash(s[k])
  {
    if s == "" then 0
    else if IsSlash(s[|s| - 1]) then |s|
    else PastLastSlash(s[..|s| - 1])
  }

  function SplitParentAndName(relPath: string): (string, string) {
    var trimmed := DropTrailing(DropLeading(relPath));
    var i := PastLastSlash(trimmed);
    if i == 0 then ("", trimmed) else (trimmed[..i - 1], trimmed[i..])
  }

  /** The last segment holds no slash, and parent, one slash and name spell the trimmed path. */
  lemma SplitExact(relPath: string)
    ensures var (parent, name) := SplitParentAndName(relPath);
            var trimmed := DropTrailing(DropLeading(relPath));
            && (forall c :: c in name ==> !IsSlash(c))
            && (if (exists c :: c in trimmed && IsSlash(c))
                then exists slash :: IsSlash(slash) && trimmed == parent + [slash] + name
                else parent == "" && name == trimmed)
            && (trimmed != "" ==> name != "")
  {
    var trimmed := DropTrailing(DropLeading(relPath));
    var (parent, name) := SplitParentAndName(relPath);
    var i := PastLastSlash(trimmed);
    NoTrailing(DropLeading(relPath));
    if i > 0 {
      assert trimmed == parent + [trimmed[i - 1]] + name;
    }
  }

  lemma {:induction false} NoTrailing(s: string)
    ensures var t := DropTrailing(s); t == "" || !IsSlash(t[|t| - 1])
  {
    if s != "" && IsSlash(s[|s| - 1]) {
      NoTrailing(s[..|s| - 1]);
    }
  }

  predicate ValidNames(cs: Path) {
    cs != [] && forall c :: c in cs ==> IsValidEntryName(c)
  }

  /** A spelling of a path of plain names, slashes of either kind around it or not. */
  ghost predicate Spells(relPath: string, cs: Path) {
    ValidNames(cs) && exists l, r :: AllSlashes(l) && AllSlashes(r) && relPath == l + Joined(cs) + r
  }

  /** Where it is split: the parent's spelling, and the last name. */
  lemma SpellingSplits(relPath: string, cs: Path)
    requires Spells(relPath, cs)
    ensures SplitParentAndName(relPath) == (Joined(cs[..|cs| - 1]), cs[|cs| - 1])
    ensures '\0' !in relPath
  {
    var l, r :| AllSlashes(l) && AllSlashes(r) && relPath == l + Joined(cs) + r;
    SpellingTrims(l, cs, r);
    JoinedEnds(cs);
    PastLastSlashIn(Joined(cs[..|cs| - 1]), cs[|cs| - 1], Joined(cs));
    if |cs| == 1 {
      assert cs[..0] == [];
    }
    NoNul(cs);
  }

  lemma SpellingTrims(l: string, cs: Path, r: string)
    requires ValidNames(cs) && AllSlashes(l) && AllSlashes(r)
    ensures DropTrailing(DropLeading(l + Joined(cs) + r)) == Joined(cs)
  {
    var j := Joined(cs);
    assert cs[0] in cs;
    JoinedStart(cs);
    JoinedEnds(cs);
    assert l + j + r == l + (j + r) && (j + r)[0] == j[0];
    DropLeadingOf(l, j + r);
    DropTrailingOf(j, r);
  }

  /** A joined path ends in its last name, behind a slash if there is more than one. */
  lemma JoinedEnds(cs: Path)
    requires ValidNames(cs)
    ensures var j, last := Joined(cs), cs[|cs| - 1];
            && j != "" && !IsSlash(j[|j| - 1]) && (forall c :: c in last ==> !IsSlash(c))
            && (if |cs| == 1 then j == last else j == Joined(cs[..|cs| - 1]) + [SEP] + last)
  {
    var last := cs[|cs| - 1];
    assert last in cs && last != "" && last[|last| - 1] in last;
  }

  lemma {:induction false} PastLastSlashAt(s: string, i: nat)
    requires i <= |s| && (i > 0 ==> IsSlash(s[i - 1])) && forall k :: i <= k < |s| ==> !IsSlash(s[k])
    ensures PastLastSlash(s) == i
  {
    if i < |s| {
      PastLastSlashAt(s[..|s| - 1], i);
    }
  }

  lemma PastLastSlashIn(parent: string, last: string, j: string)
    requires forall c :: c in last ==> !IsSlash(c)
    requires j == last || j == parent + [SEP] + last
    ensures j == last ==> PastLastSlash(j) == 0
    ensures j == parent + [SEP] + last ==>
              PastLastSlash(j) == |parent| + 1 && j[..|parent|] == parent && j[|parent| + 1..] == last
  {
    if j == last {
      PastLastSlashAt(j, 0);
    }
    if j == parent + [SEP] + last {
      PastLastSlashAt(j, |parent| + 1);
    }
  }

  lemma {:induction false} NoNul(cs: Path)
    requires ValidNames(cs)
    ensures '\0' !in Joined(cs)
  {
    assert cs[|cs| - 1] in cs;
    if |cs| > 1 {
      NoNul(cs[..|cs| - 1]);
    }
  }

  lemma ValidNamesNormal(cs: Path)
    requires ValidNames(cs)
    ensures Normal(cs)
  {}

  /** The parent's spelling names the parent. */
  lemma ParentSpelled(root: Path, cs: Path)
    requires ValidNames(cs)
    ensures Lexical(root, Joined(cs[..|cs| - 1])) == root + cs[..|cs| - 1]
  {
    var init := cs[..|cs| - 1];
    if init == [] {
      assert Joined(init) == "" == DropLeading("");
      assert Split("") == [""];
      WalkedOne(root, "");
      assert root + init == root;
    } else {
      ValidNamesNormal(init);
      assert init[0] in init;
      LexicalExactly(root, "", init);
      assert "" + Joined(init) == Joined(init);
    }
  }
}
