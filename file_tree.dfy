/** An abstract file system: a tree of directories and files addressed by absolute
    paths (sequences of segment names below "/"), with the Node.js calls the deploy
    server and the upload store make on it — path.join, existsSync, mkdirSync
    (recursive), writeFileSync, rmSync (recursive), rmdirSync, readdirSync and
    statSync().isDirectory(). A call that Node.js would make throw returns None. */
module FileTree {
  import opened Text

  type Path = seq<string>

  datatype Node = File(data: Bytes) | Dir(children: map<string, Node>)

  const EmptyDir: Node := Dir(map[])

  function Parent(p: Path): Path
    requires p != []
  {
    p[..|p| - 1]
  }

  /** The node at path p, if any. */
  function Lookup(n: Node, p: Path): Option<Node>
    decreases p
  {
    if p == [] then Some(n)
    else match n
      case File(_) => None
      case Dir(m) => if p[0] in m then Lookup(m[p[0]], p[1..]) else None
  }

  predicate Exists(n: Node, p: Path)
  {
    Lookup(n, p).Some?
  }

  predicate IsDirAt(n: Node, p: Path)
  {
    Lookup(n, p).Some? && Lookup(n, p).value.Dir?
  }

  /** Puts v at p when the parent of p is a directory; any other tree is returned unchanged. */
  function SetAt(n: Node, p: Path, v: Node): Node
    decreases p
  {
    if p == [] then v
    else match n
      case File(_) => n
      case Dir(m) =>
        if |p| == 1 then Dir(m[p[0] := v])
        else if p[0] in m then Dir(m[p[0] := SetAt(m[p[0]], p[1..], v)])
        else n
  }

  /** Removes the entry at p (p below the root); a missing entry leaves the tree unchanged. */
  function RemoveAt(n: Node, p: Path): Node
    decreases p
  {
    if p == [] then n
    else match n
      case File(_) => n
      case Dir(m) =>
        if |p| == 1 then Dir(m - {p[0]})
        else if p[0] in m then Dir(m[p[0] := RemoveAt(m[p[0]], p[1..])])
        else n
  }

  /** Setting a node writes exactly that node: below p one now finds v, and every path that
      neither lies under p nor leads to p is untouched. */
  lemma {:induction false} LookupSetAt(n: Node, p: Path, v: Node, q: Path)
    requires p != [] && IsDirAt(n, Parent(p))
    ensures StartsWith(q, p) ==> Lookup(SetAt(n, p, v), q) == Lookup(v, q[|p|..])
    ensures !StartsWith(q, p) && !StartsWith(p, q) ==> Lookup(SetAt(n, p, v), q) == Lookup(n, q)
    ensures StartsWith(p, q) && q != p ==> IsDirAt(SetAt(n, p, v), q)
    decreases p
  {
    var m := n.children;
    if |p| == 1 {
      if q != [] && q[0] == p[0] {
        assert StartsWith(q, p);
        assert q[|p|..] == q[1..];
      }
    } else {
      assert p[0] in m;
      var c := m[p[0]];
      assert Parent(p)[1..] == Parent(p[1..]);
      if q != [] && q[0] == p[0] {
        LookupSetAt(c, p[1..], v, q[1..]);
        assert StartsWith(q, p) ==> q[1..][|p[1..]|..] == q[|p|..];
        assert StartsWith(q, p) <==> StartsWith(q[1..], p[1..]);
        assert StartsWith(p, q) <==> StartsWith(p[1..], q[1..]);
      }
    }
  }

  /** Removing an entry makes everything under it disappear and leaves everything beside it. */
  lemma {:induction false} LookupRemoveAt(n: Node, p: Path, q: Path)
    requires p != [] && IsDirAt(n, Parent(p))
    ensures StartsWith(q, p) ==> Lookup(RemoveAt(n, p), q).None?
    ensures !StartsWith(q, p) && !StartsWith(p, q) ==> Lookup(RemoveAt(n, p), q) == Lookup(n, q)
    ensures StartsWith(p, q) && q != p ==> IsDirAt(RemoveAt(n, p), q)
    decreases p
  {
    var m := n.children;
    if |p| == 1 {
    } else {
      assert p[0] in m;
      assert Parent(p)[1..] == Parent(p[1..]);
      if q != [] && q[0] == p[0] {
        LookupRemoveAt(m[p[0]], p[1..], q[1..]);
        assert StartsWith(q, p) <==> StartsWith(q[1..], p[1..]);
        assert StartsWith(p, q) <==> StartsWith(p[1..], q[1..]);
      }
    }
  }

  // ---------------------------------------------------------------------------
  // path.join
  // ---------------------------------------------------------------------------

  /** Appends the segments of a relative path to an absolute one the way path.normalize
      does: empty and "." segments vanish, ".." drops the last segment (and stays at "/"). */
  function Resolve(base: Path, segs: seq<string>): Path
    decreases |segs|
  {
    if segs == [] then base
    else if segs[0] == "" || segs[0] == "." then Resolve(base, segs[1..])
    else if segs[0] == ".." then Resolve(if base == [] then [] else Parent(base), segs[1..])
    else Resolve(base + [segs[0]], segs[1..])
  }

  /** path.join(base, rel) for an absolute base, as the segments it names. A trailing '/' of
      rel, which path.join keeps, is not a segment; WriteFileAt accounts for it. */
  function JoinPath(base: Path, rel: string): Path
  {
    Resolve(base, Split(rel, {'/'}))
  }

  /** A segment that path.join keeps as it is: non-empty, no '/', not "." or "..". */
  predicate PlainSegment(s: string)
  {
    s != "" && s != "." && s != ".." && '/' !in s
  }

  predicate PlainPath(p: Path)
  {
    forall i :: 0 <= i < |p| ==> PlainSegment(p[i])
  }

  /** Resolving never produces "", "." or ".." as a segment. */
  lemma {:induction false} ResolvePlain(base: Path, segs: seq<string>)
    requires PlainPath(base)
    requires forall i :: 0 <= i < |segs| ==> '/' !in segs[i]
    ensures PlainPath(Resolve(base, segs))
    decreases |segs|
  {
    if segs != [] {
      if segs[0] == "" || segs[0] == "." {
        ResolvePlain(base, segs[1..]);
      } else if segs[0] == ".." {
        ResolvePlain(if base == [] then [] else Parent(base), segs[1..]);
      } else {
        ResolvePlain(base + [segs[0]], segs[1..]);
      }
    }
  }

  lemma JoinPathPlain(base: Path, rel: string)
    requires PlainPath(base)
    ensures PlainPath(JoinPath(base, rel))
  {
    var segs := Split(rel, {'/'});
    forall i | 0 <= i < |segs| ensures '/' !in segs[i] {
      assert NoneIn(segs[i], {'/'});
    }
    ResolvePlain(base, segs);
  }

  /** Joining a plain segment names the direct child of base with that name. */
  lemma JoinPathSegment(base: Path, name: string)
    requires PlainSegment(name)
    ensures JoinPath(base, name) == base + [name]
  {
    assert NoneIn(name, {'/'});
    SplitWithoutSeparator(name, {'/'});
    assert [name][1..] == [];
    assert Resolve(base, [name]) == Resolve(base + [name], []);
  }

  /** Joining "" resolves to base itself. */
  lemma JoinPathEmpty(base: Path)
    ensures JoinPath(base, "") == base
  {
    assert Split("", {'/'}) == [""];
    assert [""][1..] == [];
  }

  // ---------------------------------------------------------------------------
  // The fs calls
  // ---------------------------------------------------------------------------

  /** fs.mkdirSync(p, { recursive: true }): creates every missing directory on the way; fails
      when p or one of its prefixes is a file. */
  function MkdirP(n: Node, p: Path): (r: Option<Node>)
    ensures r.Some? ==> IsDirAt(r.value, p)
    ensures IsDirAt(n, p) && n.Dir? ==> r == Some(n)
    decreases |p|
  {
    if p == [] then (if n.Dir? then Some(n) else None)
    else
      assert IsDirAt(n, p) ==> IsDirAt(n, Parent(p)) by {
        if IsDirAt(n, p) { ParentOfExisting(n, p); }
      }
      match MkdirP(n, Parent(p))
      case None => None
      case Some(n1) =>
        match Lookup(n1, p)
        case Some(Dir(_)) => Some(n1)
        case Some(File(_)) => None
        case None =>
          LookupSetAt(n1, p, EmptyDir, p);
          assert p[|p|..] == [];
          Some(SetAt(n1, p, EmptyDir))
  }

  /** fs.writeFileSync(p, data): the parent must be a directory and p must not be one. */
  function WriteFile(n: Node, p: Path, data: Bytes): (r: Option<Node>)
    ensures r.Some? ==> Lookup(r.value, p) == Some(File(data))
  {
    if p == [] || !IsDirAt(n, Parent(p)) || IsDirAt(n, p) then None
    else
      LookupSetAt(n, p, File(data), p);
      assert p[|p|..] == [];
      Some(SetAt(n, p, File(data)))
  }

  /** A relative name ending in '/': path.join keeps that '/' at the end of the joined path. */
  predicate EndsWithSlash(rel: string)
  {
    |rel| > 0 && rel[|rel| - 1] == '/'
  }

  /** fs.writeFileSync(path.join(dir, rel), data). A joined path ending in '/' can only name a
      directory, so the write throws (EISDIR, or ENOTDIR over a file) whatever the tree holds. */
  function WriteFileAt(n: Node, dir: Path, rel: string, data: Bytes): (r: Option<Node>)
    ensures r.Some? ==> !EndsWithSlash(rel) && Lookup(r.value, JoinPath(dir, rel)) == Some(File(data))
  {
    if EndsWithSlash(rel) then None else WriteFile(n, JoinPath(dir, rel), data)
  }

  /** "name/" joins to the same segments as the plain name, yet is never written. */
  lemma TrailingSlashNeverWritten(n: Node, dir: Path, name: string, data: Bytes)
    requires PlainSegment(name)
    ensures JoinPath(dir, name + "/") == dir + [name]
    ensures WriteFileAt(n, dir, name + "/", data).None?
  {
    assert NoneIn(name, {'/'});
    assert name + "/" == name + ['/'] + "";
    SplitAtSeparator(name, '/', "", {'/'});
    assert Split("", {'/'}) == [""];
    var segs := Split(name + "/", {'/'});
    assert segs == [name, ""];
    assert segs[1..] == [""] && segs[1..][1..] == [];
    assert Resolve(dir, segs) == Resolve(dir + [name], [""]);
  }

  /** fs.rmSync(p, { recursive: true }): fails on a missing path. */
  function RemoveTree(n: Node, p: Path): (r: Option<Node>)
    ensures r.Some? <==> Exists(n, p)
  {
    if Lookup(n, p).None? then None else Some(RemoveAt(n, p))
  }

  /** fs.readdirSync(p): the names in directory p. */
  function ReadDir(n: Node, p: Path): (r: Option<set<string>>)
    ensures r.Some? <==> IsDirAt(n, p)
  {
    match Lookup(n, p)
    case Some(Dir(m)) => Some(m.Keys)
    case _ => None
  }

  /** Existence is monotone under the parent relation: a path that exists has a directory as
      parent. */
  lemma {:induction false} ParentOfExisting(n: Node, p: Path)
    requires p != [] && Exists(n, p)
    ensures IsDirAt(n, Parent(p))
    decreases p
  {
    if |p| > 1 {
      var c := n.children[p[0]];
      ParentOfExisting(c, p[1..]);
      assert Parent(p)[1..] == Parent(p[1..]);
    }
  }

  /** Writing a file never removes a directory: the write is refused when its target is a
      directory, and a directory on the way to another one is a directory too. */
  lemma WriteFileKeepsDirs(n: Node, p: Path, data: Bytes, q: Path)
    requires WriteFile(n, p, data).Some? && IsDirAt(n, q)
    ensures !StartsWith(q, p)
    ensures IsDirAt(WriteFile(n, p, data).value, q)
  {
    LookupSetAt(n, p, File(data), q);
    if StartsWith(q, p) {
      assert q == p + q[|p|..];
      LookupAppend(n, p, q[|p|..]);
      assert false;
    }
  }

  /** Neither path lies on the way to, or under, the other. */
  predicate Apart(p: Path, q: Path)
  {
    !StartsWith(p, q) && !StartsWith(q, p)
  }

  /** Looking up p + r is looking up p, then r below it. */
  lemma {:induction false} LookupAppend(n: Node, p: Path, r: Path)
    ensures Lookup(n, p + r) == (if Lookup(n, p).Some? then Lookup(Lookup(n, p).value, r) else None)
    decreases p
  {
    if p == [] {
      assert p + r == r;
    } else if n.Dir? && p[0] in n.children {
      assert (p + r)[0] == p[0];
      assert (p + r)[1..] == p[1..] + r;
      LookupAppend(n.children[p[0]], p[1..], r);
    }
  }

  /** Nothing exists below a missing path. */
  lemma NothingBelowMissing(n: Node, p: Path, q: Path)
    requires Lookup(n, p).None? && StartsWith(q, p)
    ensures Lookup(n, q).None?
  {
    assert q == p + q[|p|..];
    LookupAppend(n, p, q[|p|..]);
  }

  /** An empty directory holds nothing below itself. */
  lemma EmptyDirIsEmpty(q: Path)
    requires q != []
    ensures Lookup(EmptyDir, q).None?
  {
  }

  /** mkdir -p touches only p and the directories on the way to it: every other path looks the
      same afterwards, and p is the directory that was there or a new empty one. */
  lemma {:induction false} MkdirPFrame(n: Node, p: Path, q: Path)
    requires MkdirP(n, p).Some?
    ensures !StartsWith(p, q) ==> Lookup(MkdirP(n, p).value, q) == Lookup(n, q)
    ensures Lookup(n, p).None? ==> Lookup(MkdirP(n, p).value, p) == Some(EmptyDir)
    ensures IsDirAt(n, p) ==> Lookup(MkdirP(n, p).value, p) == Lookup(n, p)
    decreases |p|
  {
    if p != [] {
      var n1 := MkdirP(n, Parent(p)).value;
      assert StartsWith(Parent(p), q) ==> StartsWith(p, q);
      assert !StartsWith(Parent(p), p);
      MkdirPFrame(n, Parent(p), q);
      MkdirPFrame(n, Parent(p), p);
      if Lookup(n1, p).None? {
        LookupSetAt(n1, p, EmptyDir, q);
        LookupSetAt(n1, p, EmptyDir, p);
        assert p[|p|..] == [];
        if StartsWith(q, p) && !StartsWith(p, q) {
          EmptyDirIsEmpty(q[|p|..]);
          NothingBelowMissing(n1, p, q);
        }
      }
    }
  }

  /** Setting an entry updates the listing of its parent directory at that one name. */
  lemma {:induction false} SetAtParent(n: Node, p: Path, v: Node)
    requires p != [] && IsDirAt(n, Parent(p))
    ensures Lookup(SetAt(n, p, v), Parent(p))
      == Some(Dir(Lookup(n, Parent(p)).value.children[p[|p| - 1] := v]))
    decreases p
  {
    if |p| > 1 {
      var c := n.children[p[0]];
      assert Parent(p)[0] == p[0];
      assert Parent(p)[1..] == Parent(p[1..]);
      SetAtParent(c, p[1..], v);
    }
  }

  /** rm -r of an existing path: it is gone, and so is everything under it; every path apart from
      it looks the same. */
  lemma RemoveTreeFrame(n: Node, p: Path, q: Path)
    requires p != [] && Exists(n, p)
    ensures Lookup(RemoveTree(n, p).value, p).None?
    ensures Apart(p, q) ==> Lookup(RemoveTree(n, p).value, q) == Lookup(n, q)
  {
    ParentOfExisting(n, p);
    LookupRemoveAt(n, p, p);
    LookupRemoveAt(n, p, q);
  }
}
