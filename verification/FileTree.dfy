/** A directory tree below a root, as a map from '/'-separated relative paths to nodes. */
module FileTree {
  import opened Options
  import opened Text

  type byte = x: int | 0 <= x < 256
  type Bytes = seq<byte>

  datatype Node =
    | Dir
    | File(data: Bytes, perm: nat, mtime: int)
    | Link(target: string)

  type Tree = map<string, Node>

  /** The owner's bits of a mode: the process owns the files and is not the superuser. */
  predicate OwnerReads(perm: nat) {
    perm / 0x100 % 2 == 1
  }

  predicate OwnerWrites(perm: nat) {
    perm / 0x80 % 2 == 1
  }

  /** `p` lies strictly below directory `d`. */
  predicate Under(d: string, p: string) {
    d != "" && |d| < |p| && p[..|d|] == d && p[|d|] == '/'
  }

  predicate AtOrUnder(d: string, p: string) {
    d == p || Under(d, p)
  }

  predicate InGit(p: string) {
    p == ".git" || HasPrefix(p, ".git/")
  }

  /** The root is not an entry, and every proper ancestor of an entry is a directory of the tree. */
  ghost predicate WellFormed(t: Tree) {
    && "" !in t
    && forall d, p {:trigger Under(d, p), p in t} :: p in t && Under(d, p) ==> d in t && t[d].Dir?
  }

  /** The directories a path needs. */
  function Ancestors(p: string): (s: set<string>)
    ensures forall d :: d in s <==> Under(d, p)
  {
    var s := set i | 0 < i < |p| && p[i] == '/' :: p[..i];
    assert forall d :: Under(d, p) ==> p[..|d|] == d && p[|d|] == '/' && d in s by {
      forall d | Under(d, p) ensures d in s { assert 0 < |d| < |p| && p[|d|] == '/'; }
    }
    s
  }

  lemma UnderTransitive(a: string, b: string, c: string)
    requires Under(a, b) && Under(b, c)
    ensures Under(a, c)
  {
    assert c[..|a|] == c[..|b|][..|a|];
  }

  /** A path lies below a directory when it is that directory's path, a slash and more. */
  lemma UnderIff(d: string, p: string)
    ensures Under(d, p) <==> d != "" && exists rest :: p == d + "/" + rest
  {
    if Under(d, p) {
      assert p == d + "/" + p[|d| + 1..];
    }
    forall rest | d != "" && p == d + "/" + rest ensures Under(d, p) {
      assert p[..|d|] == d;
    }
  }

  /** Git's own are the directory `.git` and what lies below it; not `.gitignore` or `.github`. */
  lemma InGitIff(p: string)
    ensures InGit(p) <==> p == ".git" || exists rest :: p == ".git" + "/" + rest
  {
    if HasPrefix(p, ".git/") {
      assert p == ".git" + "/" + p[5..];
    }
    forall rest | p == ".git" + "/" + rest ensures InGit(p) {
      assert p[..5] == ".git/";
    }
  }

  /** The owner's digit of a mode written in octal: 4 and more for reading, 2 and 6 and their successors for writing. */
  lemma OwnerBits(special: nat, owner: nat, group: nat, others: nat)
    requires owner < 8 && group < 8 && others < 8
    ensures var perm := ((special * 8 + owner) * 8 + group) * 8 + others;
            && (OwnerReads(perm) <==> owner in {4, 5, 6, 7})
            && (OwnerWrites(perm) <==> owner in {2, 3, 6, 7})
  {
    var perm := ((special * 8 + owner) * 8 + group) * 8 + others;
    assert perm / 0x80 == special * 4 + owner / 2;
    assert perm / 0x100 == special * 2 + owner / 4;
  }

  lemma GitIsClosed(d: string, p: string)
    requires Under(d, p)
    ensures InGit(d) ==> InGit(p)
    ensures InGit(p) ==> InGit(d)
  {
    if InGit(d) {
      if d == ".git" {
        assert p[..5] == d + ['/'];
      } else {
        assert p[..5] == d[..5];
      }
    }
    if InGit(p) {
      assert p[..5] == ".git/";
      assert forall k :: 0 <= k < 4 ==> p[k] == p[..5][k] && p[k] != '/';
      if |d| == 4 {
        assert d == p[..5][..4] == ".git";
      } else {
        assert d[..5] == p[..5];
      }
    }
  }

  lemma AncestorsOutsideGit(p: string)
    ensures forall a :: a in Ancestors(p) ==> (InGit(a) <==> InGit(p))
  {
    forall a | a in Ancestors(p) ensures InGit(a) <==> InGit(p) { GitIsClosed(a, p); }
  }

  lemma AncestorsClosed(p: string)
    ensures forall a, b :: a in Ancestors(p) && Under(b, a) ==> b in Ancestors(p)
  {
    forall a, b | a in Ancestors(p) && Under(b, a) ensures b in Ancestors(p) { UnderTransitive(b, a, p); }
  }

  ghost predicate HasLeaf(t: Tree, d: string) {
    exists q :: q in t && !t[q].Dir? && Under(d, q)
  }

  /** What `os.MkdirAll` leaves for the parent of `p`; it fails when an ancestor is not a directory. */
  function MkdirAll(t: Tree, p: string): Option<Tree> {
    if forall a :: a in Ancestors(p) ==> a in t ==> t[a].Dir? then Some(WithDirs(t, Ancestors(p))) else None
  }

  function WithDirs(t: Tree, dirs: set<string>): Tree {
    t + map a | a in dirs :: Dir
  }

  function RemoveAll(t: Tree, d: string): Tree {
    map p | p in t && !AtOrUnder(d, p) :: t[p]
  }

  function InsertByLength(s: seq<string>, x: string): seq<string> {
    if s == [] then [x]
    else if |x| <= |s[0]| then [x] + s
    else [s[0]] + InsertByLength(s[1..], x)
  }

  lemma {:induction false} InsertByLengthElems(s: seq<string>, x: string)
    ensures Elems(InsertByLength(s, x)) == Elems(s) + {x}
  {
    if s != [] && |x| > |s[0]| {
      InsertByLengthElems(s[1..], x);
      assert s == [s[0]] + s[1..];
      ElemsCons(s[0], InsertByLength(s[1..], x));
      ElemsCons(s[0], s[1..]);
    } else {
      ElemsCons(x, s);
    }
  }

  lemma {:induction false} InsertByLengthKeepsOrder(s: seq<string>, x: string)
    requires Shortest(s)
    ensures Shortest(InsertByLength(s, x))
  {
    if s != [] && |x| > |s[0]| {
      var rest := InsertByLength(s[1..], x);
      InsertByLengthKeepsOrder(s[1..], x);
      InsertByLengthElems(s[1..], x);
      forall k | 0 <= k < |rest| ensures |s[0]| <= |rest[k]| {
        assert rest[k] in Elems(rest);
        assert rest[k] == x || rest[k] in s[1..];
      }
    }
  }

  ghost predicate Shortest(s: seq<string>) {
    forall i, j :: 0 <= i < j < |s| ==> |s[i]| <= |s[j]|
  }

  /** A listing of a tree that reaches every directory before what lies below it. */
  ghost predicate IsWalk(walk: seq<string>, t: Tree) {
    && Elems(walk) == t.Keys
    && forall i, j :: 0 <= i <= j < |walk| ==> !Under(walk[j], walk[i])
  }

  /** `filepath.WalkDir` lists the tree as it is on entry; only the parents-first order is used. */
  method WalkDir(t: Tree) returns (walk: seq<string>)
    ensures IsWalk(walk, t)
  {
    walk := [];
    var rest := t.Keys;
    while rest != {}
      invariant rest <= t.Keys && Shortest(walk) && Elems(walk) == t.Keys - rest
      decreases rest
    {
      var p :| p in rest;
      InsertByLengthElems(walk, p);
      InsertByLengthKeepsOrder(walk, p);
      walk := InsertByLength(walk, p);
      rest := rest - {p};
    }
  }
}
