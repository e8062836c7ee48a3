/** The app store of web/src/lib/store.ts: the record `{ apps, starred }` and the
    uploads directory beside it. The JSON file the store is read from and written back
    to is not modelled; the fields of `Store` are the state. Timestamps are milliseconds
    since the epoch; the clock and `Math.random` are parameters. */
module AppStore {
  import opened Text
  import opened Slug
  import opened Collation
  import opened FileTree

  /** An app row. `status` is 'draft' or 'published'; `createdAt`, `updatedAt` and
      `publishedAt` stand for the ISO timestamps the source stores. */
  datatype App = App(
    id: string,
    slug: string,
    name: string,
    description: string,
    status: string,
    storagePath: string,
    tags: seq<string>,
    createdAt: int,
    updatedAt: int,
    publishedAt: Option<int>,
    starCount: int,
    isStarred: bool)

  /** `Partial<App>`: the fields an update supplies. */
  datatype AppPatch = AppPatch(
    id: Option<string>,
    slug: Option<string>,
    name: Option<string>,
    description: Option<string>,
    status: Option<string>,
    storagePath: Option<string>,
    tags: Option<seq<string>>,
    createdAt: Option<int>,
    updatedAt: Option<int>,
    publishedAt: Option<int>,
    starCount: Option<int>,
    isStarred: Option<bool>)

  const NoChange := AppPatch(None, None, None, None, None, None, None, None, None, None, None, None)

  /** A file handed to saveUploadedFiles. */
  datatype Upload = Upload(name: string, data: Bytes)

  // ---------------------------------------------------------------------------
  // Lookup and listing
  // ---------------------------------------------------------------------------

  /** `apps.findIndex(a => a.id === id)`. */
  function FindIndex(apps: seq<App>, id: string): (r: int)
    ensures -1 <= r < |apps|
    ensures r == -1 <==> forall j :: 0 <= j < |apps| ==> apps[j].id != id
    ensures r >= 0 ==> apps[r].id == id && forall j :: 0 <= j < r ==> apps[j].id != id
  {
    if apps == [] then -1
    else if apps[0].id == id then 0
    else
      var r := FindIndex(apps[1..], id);
      if r == -1 then -1 else r + 1
  }

  predicate UniqueIds(apps: seq<App>)
  {
    forall i, j :: 0 <= i < j < |apps| ==> apps[i].id != apps[j].id
  }

  /** `{ ...app, is_starred: starred.includes(app.id) }` */
  function Annotated(app: App, starred: seq<string>): (r: App)
    ensures r.isStarred <==> app.id in starred
    ensures r.(isStarred := app.isStarred) == app
  {
    app.(isStarred := app.id in starred)
  }

  /** The search filter: the lower-cased name or description contains the lower-cased query. */
  predicate MatchesSearch(app: App, query: string)
  {
    Includes(ToLower(app.name), ToLower(query)) || Includes(ToLower(app.description), ToLower(query))
  }

  /** `store.apps.map(app => ({ ...app, is_starred: ... }))` */
  function AnnotateAll(apps: seq<App>, starred: seq<string>): (r: seq<App>)
    ensures |r| == |apps|
    ensures forall i :: 0 <= i < |apps| ==> r[i] == Annotated(apps[i], starred)
  {
    seq(|apps|, i requires 0 <= i < |apps| => Annotated(apps[i], starred))
  }

  /** The apps getApps returns, before sorting: the annotated apps that pass the search filter
      (when the query is non-empty) and the star filter (when asked for). */
  function Listed(apps: seq<App>, starred: seq<string>, search: Option<string>, starredOnly: bool): (r: seq<App>)
    ensures |r| <= |apps|
    ensures forall x :: x in r <==>
      && x in AnnotateAll(apps, starred)
      && (Truthy(search) ==> MatchesSearch(x, search.value))
      && (starredOnly ==> x.isStarred)
  {
    var annotated := AnnotateAll(apps, starred);
    var searched := if Truthy(search) then Filter(annotated, x => MatchesSearch(x, search.value)) else annotated;
    assert forall x :: x in searched <==> x in annotated && (Truthy(search) ==> MatchesSearch(x, search.value));
    if starredOnly then Filter(searched, (x: App) => x.isStarred) else searched
  }

  /** Every listed app is a stored app with its star flag set from the star list. */
  lemma ListedAreStoredApps(apps: seq<App>, starred: seq<string>, search: Option<string>, starredOnly: bool, x: App)
    requires x in Listed(apps, starred, search, starredOnly)
    ensures exists i :: 0 <= i < |apps| && x == apps[i].(isStarred := apps[i].id in starred)
    ensures x.isStarred <==> x.id in starred
  {
    var i :| 0 <= i < |apps| && AnnotateAll(apps, starred)[i] == x;
  }

  /** The comparator handed to `apps.sort`: by name, or by creation time, newest first. */
  predicate Precedes(a: App, b: App, byName: bool)
  {
    if byName then LexLe(a.name, b.name) else a.createdAt >= b.createdAt
  }

  lemma PrecedesTotal(a: App, b: App, byName: bool)
    ensures Precedes(a, b, byName) || Precedes(b, a, byName)
  {
    if byName {
      LexLeTotal(a.name, b.name);
    }
  }

  lemma PrecedesTransitive(a: App, b: App, c: App, byName: bool)
    requires Precedes(a, b, byName) && Precedes(b, c, byName)
    ensures Precedes(a, c, byName)
  {
    if byName {
      LexLeTransitive(a.name, b.name, c.name);
    }
  }

  predicate SortedBy(xs: seq<App>, byName: bool)
  {
    forall i, j :: 0 <= i < j < |xs| ==> Precedes(xs[i], xs[j], byName)
  }

  /** Inserts x into a sorted sequence after every element that precedes it. */
  method InsertSorted(xs: seq<App>, x: App, byName: bool) returns (r: seq<App>)
    requires SortedBy(xs, byName)
    ensures SortedBy(r, byName)
    ensures multiset(r) == multiset(xs) + multiset{x}
  {
    var p := 0;
    while p < |xs| && Precedes(xs[p], x, byName)
      invariant 0 <= p <= |xs|
      invariant forall k :: 0 <= k < p ==> Precedes(xs[k], x, byName)
    {
      p := p + 1;
    }
    if p < |xs| {
      PrecedesTotal(xs[p], x, byName);
      forall j | p <= j < |xs|
        ensures Precedes(x, xs[j], byName)
      {
        if j > p {
          PrecedesTransitive(x, xs[p], xs[j], byName);
        }
      }
    }
    r := xs[..p] + [x] + xs[p..];
    assert xs == xs[..p] + xs[p..];
  }

  /** `apps.sort(comparator)`, by insertion. */
  method SortApps(xs: seq<App>, byName: bool) returns (r: seq<App>)
    ensures SortedBy(r, byName)
    ensures multiset(r) == multiset(xs)
  {
    r := [];
    for i := 0 to |xs|
      invariant SortedBy(r, byName)
      invariant multiset(r) == multiset(xs[..i])
    {
      r := InsertSorted(r, xs[i], byName);
      assert xs[..i + 1] == xs[..i] + [xs[i]];
    }
    assert xs[..|xs|] == xs;
  }

  // ---------------------------------------------------------------------------
  // Updates
  // ---------------------------------------------------------------------------

  function Pick<T>(supplied: Option<T>, current: T): T
  {
    if supplied.Some? then supplied.value else current
  }

  /** `{ ...app, ...updates }` */
  function Spread(a: App, p: AppPatch): App
  {
    App(Pick(p.id, a.id), Pick(p.slug, a.slug), Pick(p.name, a.name), Pick(p.description, a.description),
        Pick(p.status, a.status), Pick(p.storagePath, a.storagePath), Pick(p.tags, a.tags),
        Pick(p.createdAt, a.createdAt), Pick(p.updatedAt, a.updatedAt),
        if p.publishedAt.Some? then p.publishedAt else a.publishedAt,
        Pick(p.starCount, a.starCount), Pick(p.isStarred, a.isStarred))
  }

  /** The row updateApp stores: the spread, `updated_at` set to now, and `published_at` set to
      now when the update publishes an app that has none. */
  function Updated(a: App, p: AppPatch, now: int): App
  {
    var merged := Spread(a, p).(updatedAt := now);
    if p.status == Some("published") && merged.publishedAt.None? then merged.(publishedAt := Some(now))
    else merged
  }

  /** An update overwrites the supplied fields, keeps every other one, and always moves
      `updated_at` to now. */
  lemma {:induction false} UpdatedFields(a: App, p: AppPatch, now: int)
    ensures var r := Updated(a, p, now);
      && (p.name.Some? ==> r.name == p.name.value) && (p.name.None? ==> r.name == a.name)
      && (p.description.Some? ==> r.description == p.description.value)
      && (p.description.None? ==> r.description == a.description)
      && (p.status.Some? ==> r.status == p.status.value) && (p.status.None? ==> r.status == a.status)
      && (p.tags.Some? ==> r.tags == p.tags.value) && (p.tags.None? ==> r.tags == a.tags)
      && (p.id.Some? ==> r.id == p.id.value) && (p.id.None? ==> r.id == a.id)
      && (p.slug.Some? ==> r.slug == p.slug.value) && (p.slug.None? ==> r.slug == a.slug)
      && (p.storagePath.Some? ==> r.storagePath == p.storagePath.value)
      && (p.storagePath.None? ==> r.storagePath == a.storagePath)
      && (p.createdAt.Some? ==> r.createdAt == p.createdAt.value)
      && (p.createdAt.None? ==> r.createdAt == a.createdAt)
      && (p.starCount.Some? ==> r.starCount == p.starCount.value)
      && (p.starCount.None? ==> r.starCount == a.starCount)
      && (p.isStarred.Some? ==> r.isStarred == p.isStarred.value)
      && (p.isStarred.None? ==> r.isStarred == a.isStarred)
      && (p.publishedAt.Some? ==> r.publishedAt == p.publishedAt)
      && r.updatedAt == now
  {
  }

  /** An empty update only touches `updated_at`. */
  lemma EmptyUpdate(a: App, now: int)
    ensures Updated(a, NoChange, now) == a.(updatedAt := now)
  {
  }

  /** `published_at` is set exactly when an update publishes an app that has none and does not
      supply one itself; once set, no later update without an explicit value changes it. */
  lemma PublishedAtSetOnce(a: App, p: AppPatch, now: int)
    requires p.publishedAt.None?
    ensures Updated(a, p, now).publishedAt ==
      if p.status == Some("published") && a.publishedAt.None? then Some(now) else a.publishedAt
    ensures a.publishedAt.Some? ==> Updated(a, p, now).publishedAt == a.publishedAt
  {
  }

  // ---------------------------------------------------------------------------
  // Stars
  // ---------------------------------------------------------------------------

  /** toggleStar on the id list: append when absent, else splice out the first occurrence. */
  function Toggled(starred: seq<string>, id: string): (r: seq<string>)
    ensures id !in starred ==> multiset(r) == multiset(starred) + multiset{id}
    ensures id in starred ==> multiset(r) == multiset(starred) - multiset{id}
  {
    var k := Position(starred, id);
    if k == -1 then starred + [id]
    else
      assert starred == starred[..k] + [id] + starred[k + 1..];
      starred[..k] + starred[k + 1..]
  }

  predicate NoDuplicates(xs: seq<string>)
  {
    forall i, j :: 0 <= i < j < |xs| ==> xs[i] != xs[j]
  }

  /** Splicing position k out of a duplicate-free list removes exactly the element there. */
  lemma SpliceOut(xs: seq<string>, k: nat)
    requires NoDuplicates(xs) && k < |xs|
    ensures NoDuplicates(xs[..k] + xs[k + 1..])
    ensures xs[k] !in xs[..k] + xs[k + 1..]
    ensures forall s :: s != xs[k] ==> (s in xs[..k] + xs[k + 1..] <==> s in xs)
  {
    var before, after := xs[..k], xs[k + 1..];
    var r := before + after;
    assert xs == before + [xs[k]] + after;
    forall i, j | 0 <= i < j < |r| ensures r[i] != r[j] {
      var i' := if i < k then i else i + 1;
      var j' := if j < k then j else j + 1;
      assert r[i] == xs[i'] && r[j] == xs[j'];
    }
    forall j | 0 <= j < |r| ensures r[j] != xs[k] {
      var j' := if j < k then j else j + 1;
      assert r[j] == xs[j'];
    }
  }

  /** Toggling flips membership of the id and nothing else, and keeps the list duplicate-free. */
  lemma ToggleFlips(starred: seq<string>, id: string)
    requires NoDuplicates(starred)
    ensures NoDuplicates(Toggled(starred, id))
    ensures id in Toggled(starred, id) <==> id !in starred
    ensures forall s :: s != id ==> (s in Toggled(starred, id) <==> s in starred)
  {
    var k := Position(starred, id);
    if k >= 0 {
      SpliceOut(starred, k);
      assert Toggled(starred, id) == starred[..k] + starred[k + 1..];
    } else {
      assert Toggled(starred, id) == starred + [id];
    }
  }

  /** Toggling twice restores the list when the id was absent, and restores membership when it
      was present once. */
  lemma ToggleTwice(starred: seq<string>, id: string)
    requires NoDuplicates(starred)
    ensures id !in starred ==> Toggled(Toggled(starred, id), id) == starred
    ensures forall s :: s in Toggled(Toggled(starred, id), id) <==> s in starred
  {
    var once := Toggled(starred, id);
    ToggleFlips(starred, id);
    ToggleFlips(once, id);
    forall s ensures s in Toggled(once, id) <==> s in starred {
      if s != id {
        assert s in Toggled(once, id) <==> s in once;
      }
    }
    if id !in starred {
      assert once == starred + [id];
      assert Position(once, id) == |starred| by {
        assert once[..|starred|] == starred;
      }
      assert once[..|starred|] == starred;
    }
  }

  // ---------------------------------------------------------------------------
  // Upload files
  // ---------------------------------------------------------------------------

  /** `path.dirname` of a resolved absolute path. */
  function DirName(p: Path): Path
  {
    if p == [] then [] else Parent(p)
  }

  /** The writes of saveUploadedFiles' loop, one file after the other: for each file, make its
      directory and write it (a name ending in '/' gets its directory made, then its write
      throws). The result is the tree and whether every call succeeded; on a failure the tree
      is the one the earlier writes left. */
  function WriteAll(n: Node, dir: Path, files: seq<Upload>): (Node, bool)
    decreases |files|
  {
    if files == [] then (n, true)
    else
      var p := JoinPath(dir, files[0].name);
      match MkdirP(n, DirName(p))
      case None => (n, false)
      case Some(n1) =>
        match WriteFileAt(n1, dir, files[0].name, files[0].data)
        case None => (n1, false)
        case Some(n2) => WriteAll(n2, dir, files[1..])
  }

  /** Into an existing directory, plain file names that are not already directories there are
      all written: each name ends up holding the data of the last file that carries it, and
      every other entry of the directory is left as it was. */
  lemma {:induction false} WriteAllPlain(n: Node, dir: Path, files: seq<Upload>)
    requires IsDirAt(n, dir)
    requires forall i :: 0 <= i < |files| ==> PlainSegment(files[i].name) && !IsDirAt(n, dir + [files[i].name])
    ensures WriteAll(n, dir, files).1
    ensures IsDirAt(WriteAll(n, dir, files).0, dir)
    ensures forall i :: 0 <= i < |files| && (forall j :: i < j < |files| ==> files[j].name != files[i].name) ==>
      Lookup(WriteAll(n, dir, files).0, dir + [files[i].name]) == Some(File(files[i].data))
    ensures forall x :: (forall i :: 0 <= i < |files| ==> files[i].name != x) ==>
      Lookup(WriteAll(n, dir, files).0, dir + [x]) == Lookup(n, dir + [x])
    decreases |files|
  {
    if files != [] {
      var name := files[0].name;
      var p := dir + [name];
      JoinPathSegment(dir, name);
      assert Parent(p) == dir;
      assert n.Dir? by {
        if dir != [] {
          assert Lookup(n, dir).Some?;
        }
      }
      assert MkdirP(n, DirName(p)) == Some(n);
      assert !EndsWithSlash(name) by {
        assert name[|name| - 1] in name;
      }
      assert WriteFileAt(n, dir, name, files[0].data) == Some(SetAt(n, p, File(files[0].data)));
      var n2 := SetAt(n, p, File(files[0].data));
      LookupSetAt(n, p, File(files[0].data), dir);
      assert StartsWith(p, dir);
      assert IsDirAt(n2, dir);
      forall i | 1 <= i < |files|
        ensures !IsDirAt(n2, dir + [files[i].name])
      {
        var q := dir + [files[i].name];
        LookupSetAt(n, p, File(files[0].data), q);
        if files[i].name == name {
          assert StartsWith(q, p) && q[|p|..] == [];
        } else {
          assert q[|dir|] != p[|dir|];
        }
      }
      WriteAllPlain(n2, dir, files[1..]);
      var r := WriteAll(n2, dir, files[1..]).0;
      forall i | 0 <= i < |files| && (forall j :: i < j < |files| ==> files[j].name != files[i].name)
        ensures Lookup(r, dir + [files[i].name]) == Some(File(files[i].data))
      {
        if i == 0 {
          assert forall j :: 0 <= j < |files[1..]| ==> files[1..][j].name != name;
          LookupSetAt(n, p, File(files[0].data), p);
          assert p[|p|..] == [];
        } else {
          assert files[i] == files[1..][i - 1];
        }
      }
      forall x | forall i :: 0 <= i < |files| ==> files[i].name != x
        ensures Lookup(r, dir + [x]) == Lookup(n, dir + [x])
      {
        assert forall i :: 0 <= i < |files[1..]| ==> files[1..][i].name != x;
        var q := dir + [x];
        assert q[|dir|] != p[|dir|];
        assert !StartsWith(q, p) && !StartsWith(p, q);
        LookupSetAt(n, p, File(files[0].data), q);
      }
    }
  }

  /** The whole of saveUploadedFiles on a tree: make sure the uploads directory exists (a
      failure there is ignored), make `uploadsDir/appSlug`, then write the files. The result is
      the tree and whether no call threw. */
  function Saved(n: Node, uploadsDir: Path, appSlug: string, files: seq<Upload>): (Node, bool)
  {
    var n0 := if MkdirP(n, uploadsDir).Some? then MkdirP(n, uploadsDir).value else n;
    var appDir := JoinPath(uploadsDir, appSlug);
    match MkdirP(n0, appDir)
    case None => (n0, false)
    case Some(n1) => WriteAll(n1, appDir, files)
  }

  /** Saving under a fresh plain directory name of an existing uploads directory succeeds
      for plain file names, and each file can be read back from `uploadsDir/appSlug/name`
      (the last file wins when names repeat). */
  lemma SavedFilesAreFound(n: Node, uploadsDir: Path, appSlug: string, files: seq<Upload>)
    requires IsDirAt(n, uploadsDir) && PlainSegment(appSlug)
    requires Lookup(n, uploadsDir + [appSlug]).None?
    requires forall i :: 0 <= i < |files| ==> PlainSegment(files[i].name)
    ensures Saved(n, uploadsDir, appSlug, files).1
    ensures forall i :: 0 <= i < |files| && (forall j :: i < j < |files| ==> files[j].name != files[i].name) ==>
      Lookup(Saved(n, uploadsDir, appSlug, files).0, uploadsDir + [appSlug, files[i].name]) == Some(File(files[i].data))
  {
    var appDir := uploadsDir + [appSlug];
    JoinPathSegment(uploadsDir, appSlug);
    assert n.Dir? by {
      if uploadsDir != [] {
        assert Lookup(n, uploadsDir).Some?;
      }
    }
    MkdirPFrame(n, uploadsDir, uploadsDir);
    assert MkdirP(n, uploadsDir) == Some(n);
    assert Parent(appDir) == uploadsDir;
    assert MkdirP(n, appDir).Some?;
    var n1 := MkdirP(n, appDir).value;
    MkdirPFrame(n, appDir, appDir);
    forall i | 0 <= i < |files|
      ensures !IsDirAt(n1, appDir + [files[i].name])
    {
      LookupAppend(n1, appDir, [files[i].name]);
    }
    WriteAllPlain(n1, appDir, files);
    forall i | 0 <= i < |files|
      ensures uploadsDir + [appSlug, files[i].name] == appDir + [files[i].name]
    {
    }
  }

  /** One file name ending in '/' anywhere in the list makes the writes fail: its directory is
      made and then its write throws, unless an earlier call threw already. */
  lemma {:induction false} WriteAllStopsAtSlash(n: Node, dir: Path, files: seq<Upload>, i: nat)
    requires i < |files| && EndsWithSlash(files[i].name)
    ensures !WriteAll(n, dir, files).1
    decreases i
  {
    var p := JoinPath(dir, files[0].name);
    if i > 0 && MkdirP(n, DirName(p)).Some? {
      var n1 := MkdirP(n, DirName(p)).value;
      var written := WriteFileAt(n1, dir, files[0].name, files[0].data);
      if written.Some? {
        assert files[1..][i - 1] == files[i];
        WriteAllStopsAtSlash(written.value, dir, files[1..], i - 1);
      }
    }
  }

  /** saveUploadedFiles throws whenever one of the names ends in '/', whatever the tree. */
  lemma SavedRefusesTrailingSlash(n: Node, uploadsDir: Path, appSlug: string, files: seq<Upload>, i: nat)
    requires i < |files| && EndsWithSlash(files[i].name)
    ensures !Saved(n, uploadsDir, appSlug, files).1
  {
    var n0 := if MkdirP(n, uploadsDir).Some? then MkdirP(n, uploadsDir).value else n;
    var appDir := JoinPath(uploadsDir, appSlug);
    if MkdirP(n0, appDir).Some? {
      WriteAllStopsAtSlash(MkdirP(n0, appDir).value, appDir, files, i);
    }
  }

  // ---------------------------------------------------------------------------
  // The store
  // ---------------------------------------------------------------------------

  /** The id createApp mints: `app-${now}-${random}`, where `random` stands for the base-36
      digits drawn from Math.random. */
  function NewId(now: int, random: string): string
  {
    "app-" + IntToDecimal(now) + "-" + random
  }

  class Store {
    var apps: seq<App>
    var starred: seq<string>
    /** The file system holding UPLOADS_DIR. */
    var disk: Node
    const uploadsDir: Path

    /** The store's invariant: app ids are unique and no id is starred twice. createApp keeps it
        for a fresh id, updateApp for an update that leaves the id alone, and deleteApp and
        toggleStar always. */
    ghost predicate Valid()
      reads this
    {
      UniqueIds(apps) && NoDuplicates(starred)
    }

    constructor (uploadsDir: Path, disk: Node)
      ensures Valid()
      ensures apps == [] && starred == []
      ensures this.disk == disk && this.uploadsDir == uploadsDir
    {
      apps := [];
      starred := [];
      this.disk := disk;
      this.uploadsDir := uploadsDir;
    }

    /** getApps: annotate, filter by search and star, then sort by name or newest first. */
    method GetApps(search: Option<string>, starredOnly: bool, sort: Option<string>) returns (r: seq<App>)
      ensures multiset(r) == multiset(Listed(apps, starred, search, starredOnly))
      ensures SortedBy(r, sort == Some("name"))
    {
      var listed := Listed(apps, starred, search, starredOnly);
      r := SortApps(listed, sort == Some("name"));
    }

    /** getApp: the first app with this id, annotated, or null. */
    method GetApp(id: string) returns (r: Option<App>)
      ensures r.None? <==> forall j :: 0 <= j < |apps| ==> apps[j].id != id
      ensures r.Some? ==> FindIndex(apps, id) >= 0 && r.value == Annotated(apps[FindIndex(apps, id)], starred)
    {
      var k := FindIndex(apps, id);
      if k == -1 {
        return None;
      }
      r := Some(Annotated(apps[k], starred));
    }

    /** createApp: append a draft app with a minted id, the slug of its name, no tags and no
        stars. */
    method CreateApp(name: string, description: string, storagePath: string, now: int, random: string)
      returns (app: App)
      modifies this
      ensures app.id == NewId(now, random) && app.slug == Slugify(name)
      ensures app.name == name && app.description == description && app.storagePath == storagePath
      ensures app.status == "draft" && app.tags == [] && app.starCount == 0 && !app.isStarred
      ensures app.createdAt == now && app.updatedAt == now && app.publishedAt.None?
      ensures apps == old(apps) + [app]
      ensures starred == old(starred) && disk == old(disk)
      ensures old(Valid()) && FindIndex(old(apps), app.id) == -1 ==> Valid()
    {
      app := App(NewId(now, random), Slugify(name), name, description, "draft", storagePath, [],
                 now, now, None, 0, false);
      apps := apps + [app];
    }

    /** updateApp: merge the update into the first app with this id, or return null and change
        nothing. */
    method UpdateApp(id: string, patch: AppPatch, now: int) returns (r: Option<App>)
      modifies this
      ensures starred == old(starred) && disk == old(disk)
      ensures FindIndex(old(apps), id) == -1 ==> r.None? && apps == old(apps)
      ensures FindIndex(old(apps), id) >= 0 ==>
        var k := FindIndex(old(apps), id);
        && apps == old(apps)[k := Updated(old(apps)[k], patch, now)]
        && r == Some(Updated(old(apps)[k], patch, now).(isStarred := id in starred))
      ensures old(Valid()) && (patch.id.None? || patch.id == Some(id)) ==> Valid()
    {
      var k := FindIndex(apps, id);
      if k == -1 {
        return None;
      }
      var row := Updated(apps[k], patch, now);
      apps := apps[k := row];
      r := Some(row.(isStarred := id in starred));
    }

    /** deleteApp: remove the first app with this id and its id from the star list, and try to
        remove its upload directory (a failure there is ignored). */
    method DeleteApp(id: string) returns (deleted: bool)
      modifies this
      ensures deleted <==> FindIndex(old(apps), id) >= 0
      ensures !deleted ==> apps == old(apps) && starred == old(starred) && disk == old(disk)
      ensures deleted ==>
        var k := FindIndex(old(apps), id);
        var app := old(apps)[k];
        && apps == old(apps)[..k] + old(apps)[k + 1..]
        && starred == Filter(old(starred), s => s != id)
        && disk == (if app.storagePath != "" && RemoveTree(old(disk), JoinPath(uploadsDir, app.storagePath)).Some?
                    then RemoveTree(old(disk), JoinPath(uploadsDir, app.storagePath)).value
                    else old(disk))
      ensures old(Valid()) ==> Valid() && FindIndex(apps, id) == -1
      ensures deleted ==> id !in starred
    {
      var k := FindIndex(apps, id);
      if k == -1 {
        return false;
      }
      var rest := apps[..k] + apps[k + 1..];
      var kept := Filter(starred, s => s != id);
      DeleteKeepsValid(apps, starred, id);
      var path := apps[k].storagePath;
      ghost var d0 := disk;
      RemoveUploads(path);
      assert disk == (if path != "" && RemoveTree(d0, JoinPath(uploadsDir, path)).Some?
                      then RemoveTree(d0, JoinPath(uploadsDir, path)).value
                      else d0);
      apps, starred := rest, kept;
      deleted := true;
    }

    /** The upload directory removal deleteApp attempts: nothing happens when the app has no
        storage path or the directory cannot be removed. */
    method RemoveUploads(storagePath: string)
      modifies this
      ensures apps == old(apps) && starred == old(starred)
      ensures disk == (if storagePath != "" && RemoveTree(old(disk), JoinPath(uploadsDir, storagePath)).Some?
                       then RemoveTree(old(disk), JoinPath(uploadsDir, storagePath)).value
                       else old(disk))
    {
      if storagePath != "" {
        var removed := RemoveTree(disk, JoinPath(uploadsDir, storagePath));
        if removed.Some? {
          disk := removed.value;
        }
      }
    }

    /** toggleStar: returns whether the app is starred now. */
    method ToggleStar(appId: string) returns (nowStarred: bool)
      modifies this
      ensures nowStarred <==> appId !in old(starred)
      ensures starred == Toggled(old(starred), appId)
      ensures apps == old(apps) && disk == old(disk)
      ensures old(Valid()) ==>
        && Valid()
        && (appId in starred <==> nowStarred)
        && forall s :: s != appId ==> (s in starred <==> s in old(starred))
    {
      if NoDuplicates(starred) {
        ToggleFlips(starred, appId);
      }
      var k := Position(starred, appId);
      if k == -1 {
        starred := starred + [appId];
      } else {
        starred := starred[..k] + starred[k + 1..];
      }
      nowStarred := k == -1;
    }

    /** saveUploadedFiles: make sure the uploads directory exists (ignoring failure), create
        `UPLOADS_DIR/appSlug`, then write each file below it, creating its directory first.
        Returns the slug, or None where the source throws. */
    method SaveUploadedFiles(appSlug: string, files: seq<Upload>) returns (saved: Option<string>)
      modifies this
      ensures apps == old(apps) && starred == old(starred)
      ensures disk == Saved(old(disk), uploadsDir, appSlug, files).0
      ensures saved.Some? <==> Saved(old(disk), uploadsDir, appSlug, files).1
      ensures saved.Some? ==> saved.value == appSlug
    {
      var ensured := MkdirP(disk, uploadsDir);
      if ensured.Some? {
        disk := ensured.value;
      }
      var appDir := JoinPath(uploadsDir, appSlug);
      var made := MkdirP(disk, appDir);
      ghost var outcome := Saved(old(disk), uploadsDir, appSlug, files);
      if made.None? {
        assert outcome == (disk, false);
        return None;
      }
      disk := made.value;
      ghost var n1 := disk;
      assert outcome == WriteAll(n1, appDir, files);
      var i := 0;
      while i < |files|
        invariant 0 <= i <= |files|
        invariant apps == old(apps) && starred == old(starred)
        invariant outcome == WriteAll(disk, appDir, files[i..])
      {
        var p := JoinPath(appDir, files[i].name);
        var dirMade := MkdirP(disk, DirName(p));
        if dirMade.None? {
          assert outcome == (disk, false);
          return None;
        }
        disk := dirMade.value;
        var written := WriteFileAt(disk, appDir, files[i].name, files[i].data);
        if written.None? {
          assert outcome == (disk, false);
          return None;
        }
        disk := written.value;
        assert files[i..][1..] == files[i + 1..];
        i := i + 1;
      }
      assert outcome == (disk, true);
      saved := Some(appSlug);
    }
  }

  /** A created app is found again by its id when no earlier app carries that id. */
  lemma {:induction false} CreatedAppIsFound(apps: seq<App>, app: App)
    requires forall j :: 0 <= j < |apps| ==> apps[j].id != app.id
    ensures FindIndex(apps + [app], app.id) == |apps|
  {
    if apps != [] {
      assert (apps + [app])[1..] == apps[1..] + [app];
      CreatedAppIsFound(apps[1..], app);
    }
  }

  /** deleteApp keeps the store's invariant: the remaining apps still have unique ids, none of
      them has the deleted id, and the filtered star list is still free of duplicates. */
  lemma DeleteKeepsValid(apps: seq<App>, starred: seq<string>, id: string)
    requires FindIndex(apps, id) >= 0
    ensures var k := FindIndex(apps, id);
      var rest := apps[..k] + apps[k + 1..];
      UniqueIds(apps) ==> UniqueIds(rest) && FindIndex(rest, id) == -1
    ensures NoDuplicates(starred) ==> NoDuplicates(Filter(starred, s => s != id))
    ensures id !in Filter(starred, s => s != id)
  {
    if UniqueIds(apps) {
      DeletedAppIsGone(apps, id);
    }
    if NoDuplicates(starred) {
      FilterKeepsNoDuplicates(starred, s => s != id);
    }
  }

  /** With unique ids, deleting an app leaves no app with that id and keeps every other app,
      in order. */
  lemma DeletedAppIsGone(apps: seq<App>, id: string)
    requires UniqueIds(apps) && FindIndex(apps, id) >= 0
    ensures var k := FindIndex(apps, id);
      var rest := apps[..k] + apps[k + 1..];
      && FindIndex(rest, id) == -1
      && UniqueIds(rest)
      && forall j :: 0 <= j < |apps| && j != k ==> apps[j] in rest
  {
    var k := FindIndex(apps, id);
    var rest := apps[..k] + apps[k + 1..];
    forall j | 0 <= j < |rest|
      ensures rest[j].id != id
    {
      if j < k {
        assert rest[j] == apps[j];
      } else {
        assert rest[j] == apps[j + 1];
      }
    }
    forall j | 0 <= j < |apps| && j != k
      ensures apps[j] in rest
    {
      if j < k {
        assert rest[j] == apps[j];
      } else {
        assert rest[j - 1] == apps[j];
      }
    }
  }

  /** Filtering never brings in a duplicate. */
  lemma {:induction false} FilterKeepsNoDuplicates(xs: seq<string>, keep: string -> bool)
    requires NoDuplicates(xs)
    ensures NoDuplicates(Filter(xs, keep))
    decreases |xs|
  {
    if xs != [] {
      FilterKeepsNoDuplicates(xs[1..], keep);
      var rest := Filter(xs[1..], keep);
      assert xs[0] !in xs[1..] by {
        forall j | 0 <= j < |xs[1..]| ensures xs[1..][j] != xs[0] {
          assert xs[1..][j] == xs[j + 1];
        }
      }
      assert xs[0] !in rest;
    }
  }

  /** After a delete, the id is in no star list entry. */
  lemma DeletedIdUnstarred(starred: seq<string>, id: string)
    ensures id !in Filter(starred, s => s != id)
  {
  }
}
