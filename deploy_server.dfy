/** The deploy server of deploy/server.js: bearer-token auth, route dispatch, and the deploy,
    list and delete handlers working on the directory tree below APPS_DIR. The file system is
    the `disk` field of `Server`; the output of the `unzip` child process is a parameter (the
    entries it unpacks, or None when it fails). A handler that would throw answers 500. */
module DeployServer {
  import opened Text
  import opened Slug
  import opened FileTree
  import opened Multipart
  import opened Env

  const DefaultAppsDir: Path := ["var", "www", "apps"]

  const MissingBoundary := "Missing boundary in content-type"
  const MissingAppName := "Missing app name"
  const AppNotFound := "App not found"
  const Unauthorized := "Unauthorized"
  const NotFound := "Not found"

  /** What the server answers. `Crashed` is the 500 carrying a Node.js error message. */
  datatype Reply =
    | NoContent
    | Healthy(appsDir: Path)
    | Failure(status: int, error: string)
    | Crashed
    | Deployed(app: string, url: string, files: set<string>)
    | AppList(apps: map<string, nat>)
    | Removed(deleted: string)

  function StatusOf(r: Reply): int
  {
    match r
    case NoContent => 204
    case Failure(status, _) => status
    case Crashed => 500
    case _ => 200
  }

  function AppUrl(name: string): string
  {
    "https://" + name + ".yourdomain.com"
  }

  /** `req.headers[h] || ''` */
  function HeaderValue(h: Option<string>): string
  {
    if h.Some? then h.value else ""
  }

  // ---------------------------------------------------------------------------
  // checkAuth
  // ---------------------------------------------------------------------------

  const BearerPrefix := "Bearer "

  /** checkAuth: the header with its first "Bearer " removed must equal the password. */
  predicate CheckAuth(authorization: Option<string>, password: string)
  {
    ReplaceFirst(HeaderValue(authorization), BearerPrefix, "") == password
  }

  /** `Bearer <password>` is accepted. */
  lemma BearerAccepted(password: string)
    ensures CheckAuth(Some(BearerPrefix + password), password)
  {
    var h := BearerPrefix + password;
    assert MatchesAt(h, BearerPrefix, 0) by {
      assert h[..|BearerPrefix|] == BearerPrefix;
    }
    IndexOfIs(h, BearerPrefix, 0, 0);
    assert h[|BearerPrefix|..] == password;
  }

  /** The scheme is optional: the bare password is accepted as well, unless it itself contains
      "Bearer ". */
  lemma BarePasswordAccepted(password: string)
    requires !Includes(password, BearerPrefix)
    ensures CheckAuth(Some(password), password)
  {
  }

  /** Only the first "Bearer " is removed, wherever it stands: the password with "Bearer "
      inserted at any point with no 'B' before it is accepted too, so "demo123Bearer " passes
      for the password "demo123". */
  lemma BearerAnywhereIsDropped(before: string, after: string)
    requires 'B' !in before
    ensures CheckAuth(Some(before + BearerPrefix + after), before + after)
  {
    var h := before + BearerPrefix + after;
    var n := |before|;
    assert BearerPrefix[0] == 'B';
    forall k | 0 <= k < n
      ensures !MatchesAt(h, BearerPrefix, k)
    {
      assert h[k] == before[k] && before[k] in before;
      Mismatch(h, BearerPrefix, k, k);
    }
    assert h[n..n + |BearerPrefix|] == BearerPrefix;
    IndexOfIs(h, BearerPrefix, 0, n);
    assert h[..n] == before && h[n + |BearerPrefix|..] == after;
    assert ReplaceFirst(h, BearerPrefix, "") == before + "" + after;
  }

  /** The configured password is never empty, so a request without the header is refused. */
  lemma MissingHeaderRefused(env: Option<string>)
    ensures !CheckAuth(None, Password(env))
  {
    assert IndexOf("", BearerPrefix, 0) == -1;
  }

  // ---------------------------------------------------------------------------
  // The app name sanitisers
  // ---------------------------------------------------------------------------

  /** The deploy sanitiser: lower-case, anything outside [a-z0-9-] to '-', runs of '-' to one. */
  function SafeName(appName: string): string
  {
    CollapseDashes(DashOutsideSlugChars(ToLower(appName)))
  }

  /** The delete sanitiser: the same without collapsing the '-' runs. */
  function DeleteName(appName: string): (r: string)
    ensures |r| == |appName| && AllSlugChars(r)
  {
    DashOutsideSlugChars(ToLower(appName))
  }

  /** The deploy sanitiser agrees with the slug of the app store. */
  lemma SafeNameIsSlug(appName: string)
    ensures SafeName(appName) == Slugify(appName)
  {
    DashOutsideAgree(ToLower(appName));
  }

  lemma SlugCharsArePlain(s: string)
    requires s != [] && AllSlugChars(s)
    ensures PlainSegment(s)
  {
    assert IsSlugChar(s[0]);
  }

  /** A non-empty app name is deployed into a direct child of APPS_DIR, named by a non-empty
      string over [a-z0-9-] without "--": it can never reach a parent or nested directory. */
  lemma SafeNameIsChild(appsDir: Path, appName: string)
    requires appName != ""
    ensures var s := SafeName(appName);
      && s != "" && AllSlugChars(s) && NoDoubleDash(s) && PlainSegment(s)
      && JoinPath(appsDir, s) == appsDir + [s]
  {
    SafeNameIsSlug(appName);
    SlugShape(appName);
    SlugCharsArePlain(SafeName(appName));
    JoinPathSegment(appsDir, SafeName(appName));
  }

  /** The delete sanitiser of a non-empty name also names a direct child of APPS_DIR, but the
      empty name (the request `DELETE /api/apps/`) names APPS_DIR itself. */
  lemma DeleteTarget(appsDir: Path, appName: string)
    ensures appName != "" ==> JoinPath(appsDir, DeleteName(appName)) == appsDir + [DeleteName(appName)]
    ensures appName == "" ==> JoinPath(appsDir, DeleteName(appName)) == appsDir
  {
    if appName != "" {
      SlugCharsArePlain(DeleteName(appName));
      JoinPathSegment(appsDir, DeleteName(appName));
    } else {
      assert DeleteName(appName) == "";
      JoinPathEmpty(appsDir);
    }
  }

  /** Runs of '-' survive the delete sanitiser: a name with two neighbouring characters outside
      [a-z0-9-] (after lower-casing) keeps "--" there, so the delete looks for a directory the
      deploy of the same name never creates. */
  lemma DeleteDoesNotCollapse(appName: string, i: nat)
    requires i + 1 < |appName|
    requires !IsSlugChar(LowerChar(appName[i])) && !IsSlugChar(LowerChar(appName[i + 1]))
    ensures DeleteName(appName)[i] == '-' && DeleteName(appName)[i + 1] == '-'
    ensures DeleteName(appName) != SafeName(appName)
  {
    var lower := ToLower(appName);
    assert lower[i] == LowerChar(appName[i]) && lower[i + 1] == LowerChar(appName[i + 1]);
    var d := DeleteName(appName);
    assert d == DashOutsideSlugChars(lower);
    assert d[i] == '-' && d[i + 1] == '-';
    SafeNameIsSlug(appName);
    SlugShape(appName);
    assert !NoDoubleDash(d);
  }

  // ---------------------------------------------------------------------------
  // The request of a deploy
  // ---------------------------------------------------------------------------

  const BoundaryKey := "boundary="

  /** `contentType.split('boundary=')[1]`: the text after the first "boundary=" up to the next
      one, or undefined when there is none. */
  function BoundaryOf(contentType: string): (r: Option<string>)
    ensures r.Some? <==> Includes(contentType, BoundaryKey)
    ensures r.Some? ==> !Includes(r.value, BoundaryKey)
  {
    var i := IndexOf(contentType, BoundaryKey, 0);
    if i == -1 then None
    else
      var rest := contentType[i + |BoundaryKey|..];
      var j := IndexOf(rest, BoundaryKey, 0);
      if j == -1 then Some(rest)
      else
        var b := rest[..j];
        assert !Includes(b, BoundaryKey) by {
          if Includes(b, BoundaryKey) {
            var k := IndexOf(b, BoundaryKey, 0);
            assert rest[k..k + |BoundaryKey|] == b[k..k + |BoundaryKey|];
            assert MatchesAt(rest, BoundaryKey, k);
          }
        }
        Some(b)
  }

  /** The usual header: a prefix without '=' followed by "boundary=" and the boundary. */
  lemma BoundaryOfHeader(prefix: string, boundary: string)
    requires '=' !in prefix && !Includes(boundary, BoundaryKey)
    ensures BoundaryOf(prefix + BoundaryKey + boundary) == Some(boundary)
  {
    var ct := prefix + BoundaryKey + boundary;
    var n := |prefix|;
    forall k | 0 <= k < n
      ensures !MatchesAt(ct, BoundaryKey, k)
    {
      if k + 8 < n {
        assert ct[k + 8] == prefix[k + 8];
        Mismatch(ct, BoundaryKey, k, k + 8);
      } else {
        assert ct[k + 8] == BoundaryKey[k + 8 - n];
        Mismatch(ct, BoundaryKey, k, k + 8);
      }
    }
    assert ct[n..n + |BoundaryKey|] == BoundaryKey;
    IndexOfIs(ct, BoundaryKey, 0, n);
    assert ct[n + |BoundaryKey|..] == boundary;
  }

  /** What the fields of a deploy request come to once the body is parsed. */
  datatype DeployRequest =
    | NoBoundary
    | NoAppName
    | AppIsFile
    | Named(appName: string, upload: Option<Part>)

  /** The file part that is acted on: `files && files.filename`. */
  function UploadOf(parts: map<string, Part>): (r: Option<Part>)
    ensures r.Some? ==> r.value.FileField? && r.value.filename != ""
  {
    if "files" in parts && parts["files"].FileField? && parts["files"].filename != ""
    then Some(parts["files"]) else None
  }

  /** The app name from the parsed fields: `parts.app?.trim()` (a file part has no `trim`, so
      calling it throws), then `!appName` on the result. */
  function RequestOf(parts: map<string, Part>): (r: DeployRequest)
    ensures r.Named? ==> r.appName != "" && IsTrimmed(r.appName)
  {
    if "app" !in parts then NoAppName
    else if parts["app"].FileField? then AppIsFile
    else
      var name := Trim(parts["app"].text);
      if name == "" then NoAppName else Named(name, UploadOf(parts))
  }

  /** The request a deploy call works on: missing boundary first, then the parsed fields. */
  function DeployRequestOf(contentType: Option<string>, body: Bytes): DeployRequest
  {
    var boundary := BoundaryOf(HeaderValue(contentType));
    if !Truthy(boundary) then NoBoundary
    else RequestOf(Parsed(body, Utf8(boundary.value)))
  }

  // ---------------------------------------------------------------------------
  // Flattening a single wrapper directory
  // ---------------------------------------------------------------------------

  /** The only key of a one-entry map. */
  lemma OnlyKey<V>(m: map<string, V>, e: string, e': string)
    requires |m| == 1 && e in m && e' in m
    ensures e == e'
  {
    var rest := m.Keys - {e};
    assert |rest| == 0;
    assert e' != e ==> e' in rest;
  }

  /** What the extracted entries become: a lone directory is replaced by its own entries; the
      move fails (None) when the wrapper holds an entry with its own name; anything else stays. */
  ghost function Flattened(x: map<string, Node>): Option<map<string, Node>>
  {
    if |x| != 1 then Some(x)
    else
      var e :| e in x;
      match x[e]
      case File(_) => Some(x)
      case Dir(w) => if e in w then None else Some(w)
  }

  /** The wrapper with the entries named in `left` still in it. */
  function Remaining(w: map<string, Node>, left: set<string>): map<string, Node>
  {
    map f | f in w && f in left :: w[f]
  }

  /** The `readdirSync` / `statSync` / `renameSync` / `rmdirSync` step over the entries of the
      app directory. Returns whether every call succeeded and the entries the directory then
      holds: on a failed rename the entries moved so far stay moved. */
  method Flatten(x: map<string, Node>) returns (ok: bool, entries: map<string, Node>)
    ensures ok <==> Flattened(x).Some?
    ensures ok ==> entries == Flattened(x).value
  {
    if |x| != 1 {
      return true, x;
    }
    var e :| e in x;
    assert forall e' :: e' in x ==> e' == e by {
      forall e' | e' in x ensures e' == e {
        OnlyKey(x, e, e');
      }
    }
    if x[e].File? {
      return true, x;
    }
    var w := x[e].children;
    var left := w.Keys;
    entries := x;
    while left != {}
      invariant left <= w.Keys
      invariant e in entries && entries[e] == Dir(Remaining(w, left))
      invariant forall f :: f in entries && f != e ==> f in w && f !in left && entries[f] == w[f]
      invariant forall f :: f in w && f !in left ==> f in entries
      invariant e in w ==> e in left
      decreases left
    {
      var f :| f in left;
      if f == e {
        // renaming the wrapper's namesake onto the wrapper itself fails
        return false, entries;
      }
      entries := entries[f := w[f]][e := Dir(Remaining(w, left - {f}))];
      left := left - {f};
    }
    entries := entries - {e};
    forall f ensures f in entries <==> f in w {
    }
    assert entries == w;
    ok := true;
  }

  /** Entries that are not a lone directory are left as they are. */
  lemma FlattenKeepsOthers(x: map<string, Node>)
    requires |x| != 1 || forall e :: e in x ==> x[e].File?
    ensures Flattened(x) == Some(x)
  {
  }

  /** A lone wrapper directory `dist/` holding `index.html` becomes `index.html` itself. */
  lemma FlattenWrapper(e: string, w: map<string, Node>)
    requires e !in w
    ensures Flattened(map[e := Dir(w)]) == Some(w)
  {
    var x := map[e := Dir(w)];
    assert x.Keys == {e};
  }

  // ---------------------------------------------------------------------------
  // handleList
  // ---------------------------------------------------------------------------

  /** handleList: every directory directly below APPS_DIR, with the number of its entries;
      None (500) when APPS_DIR cannot be read. */
  function ListApps(n: Node, appsDir: Path): (r: Option<map<string, nat>>)
    ensures r.Some? <==> IsDirAt(n, appsDir)
  {
    match Lookup(n, appsDir)
    case Some(Dir(m)) => Some(map name | name in m && m[name].Dir? :: |m[name].children|)
    case _ => None
  }

  /** Exactly the directories are reported, each with its own entry count; plain files below
      APPS_DIR never show up. */
  lemma ListedAreDirectories(n: Node, appsDir: Path, name: string)
    requires IsDirAt(n, appsDir)
    ensures name in ListApps(n, appsDir).value <==> IsDirAt(n, appsDir + [name])
    ensures name in ListApps(n, appsDir).value ==>
      ListApps(n, appsDir).value[name] == |Lookup(n, appsDir + [name]).value.children|
  {
    LookupAppend(n, appsDir, [name]);
  }

  // ---------------------------------------------------------------------------
  // Routing
  // ---------------------------------------------------------------------------

  const AppsPrefix := "/api/apps/"

  /** `url.pathname.split('/')[3]` for a path under /api/apps/: the segment after it. */
  lemma AppSegment(pathname: string)
    requires StartsWith(pathname, AppsPrefix)
    ensures var segs := Split(pathname, {'/'});
      |segs| >= 4 && segs[3] == Split(pathname[|AppsPrefix|..], {'/'})[0]
  {
    var rest := pathname[|AppsPrefix|..];
    assert pathname == [] + ['/'] + ("api" + ['/'] + ("apps" + ['/'] + rest));
    SplitAtSeparator([], '/', "api" + ['/'] + ("apps" + ['/'] + rest), {'/'});
    SplitAtSeparator("api", '/', "apps" + ['/'] + rest, {'/'});
    SplitAtSeparator("apps", '/', rest, {'/'});
  }

  /** `DELETE /api/apps/site` asks to delete "site"; `DELETE /api/apps/` asks to delete "". */
  lemma AppSegmentExamples()
    ensures var segs := Split(AppsPrefix + "site", {'/'}); |segs| >= 4 && segs[3] == "site"
    ensures var segs := Split(AppsPrefix, {'/'}); |segs| >= 4 && segs[3] == ""
  {
    AppSegment(AppsPrefix + "site");
    assert (AppsPrefix + "site")[|AppsPrefix|..] == "site";
    SplitWithoutSeparator("site", {'/'});
    AppSegment(AppsPrefix);
    assert AppsPrefix[|AppsPrefix|..] == "";
    SplitWithoutSeparator("", {'/'});
  }

  /** A request as the handler sees it; `pathname` is `new URL(req.url).pathname`. */
  datatype Request = Request(
    verb: string,
    pathname: string,
    authorization: Option<string>,
    contentType: Option<string>,
    body: Bytes)

  /** Which branch of the request handler a request takes. */
  datatype Route = Preflight | Health | Denied | Deploy | List | Delete(name: string) | NoRoute

  /** A request past the checks that need no password, carrying the right password. */
  predicate Authorised(req: Request, password: string)
  {
    req.verb != "OPTIONS" && req.pathname != "/health" && CheckAuth(req.authorization, password)
  }

  /** The request handler's chain of checks: OPTIONS and /health come before auth; after auth,
      the three routes; anything else is not found. */
  function RouteOf(req: Request, password: string): (r: Route)
    ensures r.Preflight? <==> req.verb == "OPTIONS"
    ensures r.Health? <==> req.verb != "OPTIONS" && req.pathname == "/health"
    ensures r.Denied? <==> req.verb != "OPTIONS" && req.pathname != "/health" && !CheckAuth(req.authorization, password)
    ensures r.Deploy? <==> Authorised(req, password) && req.pathname == "/api/deploy" && req.verb == "POST"
    ensures r.List? <==> Authorised(req, password) && req.pathname == "/api/apps" && req.verb == "GET"
    ensures r.Delete? <==> Authorised(req, password) && StartsWith(req.pathname, AppsPrefix) && req.verb == "DELETE"
    ensures r.NoRoute? <==>
      && Authorised(req, password)
      && !(req.pathname == "/api/deploy" && req.verb == "POST")
      && !(req.pathname == "/api/apps" && req.verb == "GET")
      && !(StartsWith(req.pathname, AppsPrefix) && req.verb == "DELETE")
    ensures r.Delete? ==> r.name == Split(req.pathname[|AppsPrefix|..], {'/'})[0]
  {
    if req.verb == "OPTIONS" then Preflight
    else if req.pathname == "/health" then Health
    else if !CheckAuth(req.authorization, password) then Denied
    else if req.pathname == "/api/deploy" && req.verb == "POST" then Deploy
    else if req.pathname == "/api/apps" && req.verb == "GET" then List
    else if StartsWith(req.pathname, AppsPrefix) && req.verb == "DELETE" then
      AppSegment(req.pathname);
      Delete(Split(req.pathname, {'/'})[3])
    else NoRoute
  }

  /** Only the deploy and delete routes write, and both sit behind the password: a request
      without the right Authorization header reaches neither. */
  lemma WritesNeedAuth(req: Request, password: string)
    requires RouteOf(req, password).Deploy? || RouteOf(req, password).Delete?
    ensures CheckAuth(req.authorization, password)
    ensures req.verb == "POST" || req.verb == "DELETE"
  {
  }

  /** The paths outside the app directory that a deploy may not touch: everything apart from it,
      except, for a single uploaded file, the path it is written to. */
  ghost predicate OutsideDeploy(q: Path, appDir: Path, upload: Option<Part>)
  {
    && Apart(q, appDir)
    && (upload.Some? && upload.value.FileField? && !EndsWith(upload.value.filename, ".zip") ==>
          Apart(q, JoinPath(appDir, upload.value.filename)))
  }

  /** The upload a named deploy is sure to complete when APPS_DIR is a directory: none at all, an
      archive that unpacks and flattens, or a single file that `writeFileSync` accepts once
      `appDir` has been recreated in `d0` (wherever path.join puts it, and never when its name
      ends in '/'). */
  ghost predicate DeployCompletes(d0: Node, appDir: Path, upload: Option<Part>, extracted: Option<map<string, Node>>)
  {
    upload.Some? ==>
      && upload.value.FileField?
      && (if EndsWith(upload.value.filename, ".zip") then extracted.Some? && Flattened(extracted.value).Some?
          else
            var made := MkdirP(Cleared(d0, appDir), appDir);
            made.Some? && WriteFileAt(made.value, appDir, upload.value.filename, upload.value.data).Some?)
  }

  /** What a deploy that carries an app name does once the multipart body has been read: the
      app's directory is recreated and filled, or the reply is a crash. */
  ghost predicate NamedDeployEffect(d0: Node, d1: Node, appsDir: Path, appName: string, upload: Option<Part>,
                                    extracted: Option<map<string, Node>>, reply: Reply)
    requires upload.Some? ==> upload.value.FileField?
  {
    var app := SafeName(appName);
    var appDir := appsDir + [app];
    && (reply.Deployed? || reply.Crashed?)
    && (IsDirAt(d0, appsDir) && DeployCompletes(d0, appDir, upload, extracted) ==> reply.Deployed?)
    && (forall q :: OutsideDeploy(q, appDir, upload) ==> Lookup(d1, q) == Lookup(d0, q))
    && (reply.Deployed? ==>
          reply.app == app && reply.url == AppUrl(app) && ReadDir(d1, appDir) == Some(reply.files))
    && (reply.Deployed? && upload.None? ==> Lookup(d1, appDir) == Some(EmptyDir))
    && (upload.Some? && EndsWith(upload.value.filename, ".zip") ==>
          && (extracted.None? || Flattened(extracted.value).None? ==> reply.Crashed?)
          && (reply.Deployed? ==> Lookup(d1, appDir) == Some(Dir(Flattened(extracted.value).value))))
    && (upload.Some? && !EndsWith(upload.value.filename, ".zip") && EndsWithSlash(upload.value.filename) ==>
          reply.Crashed?)
    && (upload.Some? && !EndsWith(upload.value.filename, ".zip") && reply.Deployed? ==>
          var target := JoinPath(appDir, upload.value.filename);
          && Lookup(d1, target) == Some(File(upload.value.data))
          && (!StartsWith(target, appDir) ==> Lookup(d1, appDir) == Some(EmptyDir))
          && (target != [] && Parent(target) == appDir ==>
                Lookup(d1, appDir) == Some(Dir(map[target[|target| - 1] := File(upload.value.data)]))))
    && (upload.Some? && !EndsWith(upload.value.filename, ".zip")
        && PlainSegment(upload.value.filename) && reply.Deployed? ==>
          Lookup(d1, appDir) == Some(Dir(map[upload.value.filename := File(upload.value.data)])))
  }

  /** What handleDeploy answers and does to the tree `d0`, leaving `d1`. The missing boundary and
      app name are refused with 400 and a file part as app name throws, all before the tree is
      touched. A named deploy replaces the app directory by an empty one, the flattened archive,
      or the single file, touches nothing else but the single file's target (which path.join may
      put outside the app directory), and always succeeds in the cases DeployCompletes names
      when APPS_DIR is a directory. */
  ghost predicate DeployEffect(d0: Node, d1: Node, appsDir: Path, contentType: Option<string>, body: Bytes,
                               extracted: Option<map<string, Node>>, reply: Reply)
  {
    var req := DeployRequestOf(contentType, body);
    && (!req.Named? ==> d1 == d0)
    && (req.NoBoundary? ==> reply == Failure(400, MissingBoundary))
    && (req.NoAppName? ==> reply == Failure(400, MissingAppName))
    && (req.AppIsFile? ==> reply == Crashed)
    && (req.Named? ==> NamedDeployEffect(d0, d1, appsDir, req.appName, req.upload, extracted, reply))
  }

  /** What handleDelete answers and does to the tree `d0`, leaving `d1`: 404 with nothing changed
      when the sanitised target is missing, else exactly its recursive removal. */
  ghost predicate DeleteEffect(d0: Node, d1: Node, appsDir: Path, appName: string, reply: Reply)
  {
    var target := JoinPath(appsDir, DeleteName(appName));
    && (!Exists(d0, target) ==> reply == Failure(404, AppNotFound) && d1 == d0)
    && (Exists(d0, target) ==> reply == Removed(DeleteName(appName)) && d1 == RemoveTree(d0, target).value)
  }

  /** The deletion a DELETE performs: everything apart from the removed app is left alone. */
  lemma DeleteRemovesOnlyTarget(n: Node, appsDir: Path, appName: string, q: Path)
    requires appsDir != [] && appName != ""
    requires Exists(n, appsDir + [DeleteName(appName)]) && Apart(q, appsDir + [DeleteName(appName)])
    ensures JoinPath(appsDir, DeleteName(appName)) == appsDir + [DeleteName(appName)]
    ensures Lookup(RemoveTree(n, JoinPath(appsDir, DeleteName(appName))).value, q) == Lookup(n, q)
  {
    DeleteTarget(appsDir, appName);
    RemoveTreeFrame(n, appsDir + [DeleteName(appName)], q);
  }

  /** `DELETE /api/apps/` removes APPS_DIR itself, and with it every deployed app. */
  lemma EmptyDeleteWipesAppsDir(n: Node, appsDir: Path, q: Path)
    requires appsDir != [] && Exists(n, appsDir) && StartsWith(q, appsDir)
    ensures JoinPath(appsDir, DeleteName("")) == appsDir
    ensures Lookup(RemoveTree(n, JoinPath(appsDir, DeleteName(""))).value, q).None?
  {
    DeleteTarget(appsDir, "");
    RemoveTreeFrame(n, appsDir, appsDir);
    NothingBelowMissing(RemoveTree(n, appsDir).value, appsDir, q);
  }

  /** A single uploaded file is written where path.join puts it, with no traversal check:
      "../name" lands beside the app directory, directly in APPS_DIR. */
  lemma SingleFileEscapes(appsDir: Path, app: string, name: string)
    requires PlainSegment(app) && PlainSegment(name)
    ensures JoinPath(appsDir + [app], "../" + name) == appsDir + [name]
  {
    var rel := "../" + name;
    assert rel == ".." + ['/'] + name;
    assert NoneIn("..", {'/'}) && NoneIn(name, {'/'});
    SplitAtSeparator("..", '/', name, {'/'});
    SplitWithoutSeparator(name, {'/'});
    var segs := Split(rel, {'/'});
    assert segs == ["..", name];
    assert Parent(appsDir + [app]) == appsDir;
    assert segs[1..] == [name] && [name][1..] == [];
    assert segs[0] == ".." && name != "" && name != "." && name != "..";
    assert Resolve(appsDir + [app], segs) == Resolve(appsDir, [name]);
    assert Resolve(appsDir, [name]) == Resolve(appsDir + [name], []);
  }

  /** The tree once `rmSync(appDir)` has run when the directory exists. */
  function Cleared(n: Node, appDir: Path): Node
  {
    if Exists(n, appDir) then RemoveTree(n, appDir).value else n
  }

  /** Recreating a directory whose parent is a directory always succeeds. */
  lemma RecreateUnderDir(n: Node, appDir: Path)
    requires appDir != [] && IsDirAt(n, Parent(appDir))
    ensures MkdirP(Cleared(n, appDir), appDir).Some?
  {
    var c := Cleared(n, appDir);
    assert StartsWith(appDir, Parent(appDir));
    if Exists(n, appDir) {
      RemoveTreeFrame(n, appDir, appDir);
      LookupRemoveAt(n, appDir, Parent(appDir));
    }
    assert IsDirAt(c, Parent(appDir)) && Lookup(c, appDir).None?;
    if Parent(appDir) != [] {
      assert c.Dir?;
    }
    assert MkdirP(c, Parent(appDir)) == Some(c);
  }

  /** A single file with a plain name always lands in the recreated app directory. */
  lemma PlainUploadCompletes(d0: Node, appsDir: Path, app: string, upload: Part)
    requires IsDirAt(d0, appsDir) && PlainSegment(app)
    requires upload.FileField? && !EndsWith(upload.filename, ".zip") && PlainSegment(upload.filename)
    ensures DeployCompletes(d0, appsDir + [app], Some(upload), None)
  {
    var appDir := appsDir + [app];
    assert Parent(appDir) == appsDir;
    RecreateUnderDir(d0, appDir);
    var c := Cleared(d0, appDir);
    if Exists(d0, appDir) {
      RemoveTreeFrame(d0, appDir, appDir);
    }
    MkdirPFrame(c, appDir, appDir);
    var made := MkdirP(c, appDir).value;
    JoinPathSegment(appDir, upload.filename);
    assert upload.filename[|upload.filename| - 1] in upload.filename;
    var target := appDir + [upload.filename];
    assert Parent(target) == appDir;
    LookupAppend(made, appDir, [upload.filename]);
    assert !IsDirAt(made, target);
  }

  /** A single file named "../name" is written, with no traversal check, at APPS_DIR/name beside
      the app directory, which stays empty, and the deploy answers 200 unless that path is
      already a directory. */
  lemma EscapingUploadDeploys(d0: Node, d1: Node, appsDir: Path, appName: string, name: string,
                              data: Bytes, reply: Reply)
    requires IsDirAt(d0, appsDir) && appName != ""
    requires PlainSegment(name) && name != SafeName(appName) && !EndsWith("../" + name, ".zip")
    requires !IsDirAt(d0, appsDir + [name])
    requires NamedDeployEffect(d0, d1, appsDir, appName, Some(FileField("../" + name, data)), None, reply)
    ensures reply.Deployed? && Lookup(d1, appsDir + [name]) == Some(File(data))
    ensures Lookup(d1, appsDir + [SafeName(appName)]) == Some(EmptyDir)
  {
    var app := SafeName(appName);
    SafeNameIsChild(appsDir, appName);
    var appDir := appsDir + [app];
    SingleFileEscapes(appsDir, app, name);
    assert ("../" + name)[|"../" + name| - 1] == name[|name| - 1] && name[|name| - 1] in name;
    var target := appsDir + [name];
    assert target[|appsDir|] != appDir[|appsDir|];
    assert Parent(appDir) == appsDir && Apart(target, appDir);
    RecreateUnderDir(d0, appDir);
    var c := Cleared(d0, appDir);
    if Exists(d0, appDir) {
      RemoveTreeFrame(d0, appDir, target);
    }
    MkdirPFrame(c, appDir, target);
    var made := MkdirP(c, appDir).value;
    ParentOfExisting(made, appDir);
    assert Parent(target) == appsDir && !IsDirAt(made, target);
  }

  /** A single file named "name/" joins to the same path as "name", which PlainUploadCompletes
      shows is deployed, yet its `writeFileSync` throws and the deploy answers 500. */
  lemma SlashedUploadCrashes(d0: Node, d1: Node, appsDir: Path, appName: string, name: string,
                             data: Bytes, reply: Reply)
    requires PlainSegment(name)
    requires NamedDeployEffect(d0, d1, appsDir, appName, Some(FileField(name + "/", data)), None, reply)
    ensures JoinPath(appsDir + [SafeName(appName)], name + "/") == appsDir + [SafeName(appName), name]
    ensures reply.Crashed?
  {
    var slashed := name + "/";
    assert slashed[|slashed| - 1] == '/';
    assert EndsWithSlash(slashed) && !EndsWith(slashed, ".zip") by {
      if 4 <= |slashed| {
        assert slashed[|slashed| - 4..][3] == '/';
      }
    }
    TrailingSlashNeverWritten(d0, appsDir + [SafeName(appName)], name, data);
  }

  class Server {
    var disk: Node
    const appsDir: Path
    const password: string

    /** Start-up: APPS_DIR is created, with its missing ancestors, when it does not exist. The
        `mkdirSync` there throws while the module loads when that fails, and the server never
        listens, so a server exists only after a start-up that succeeded. */
    constructor (disk: Node, appsDir: Path, env: Option<string>)
      requires appsDir != []
      requires Exists(disk, appsDir) || MkdirP(disk, appsDir).Some?
      ensures this.appsDir == appsDir && password == Password(env)
      ensures this.disk == (if Exists(disk, appsDir) then disk else MkdirP(disk, appsDir).value)
      ensures Exists(this.disk, appsDir)
    {
      this.appsDir := appsDir;
      password := Password(env);
      if Exists(disk, appsDir) {
        this.disk := disk;
      } else {
        this.disk := MkdirP(disk, appsDir).value;
      }
    }

    /** `rmSync(appDir)` when it exists, then `mkdirSync(appDir, {recursive: true})`. */
    method Recreate(appDir: Path) returns (ok: bool)
      requires appDir != []
      modifies this
      ensures ok <==> MkdirP(Cleared(old(disk), appDir), appDir).Some?
      ensures IsDirAt(old(disk), Parent(appDir)) ==> ok
      ensures ok ==> disk == MkdirP(Cleared(old(disk), appDir), appDir).value
      ensures !ok ==> disk == Cleared(old(disk), appDir)
      ensures ok ==> Lookup(disk, appDir) == Some(EmptyDir)
      ensures forall q :: Apart(q, appDir) ==> Lookup(disk, q) == Lookup(old(disk), q)
    {
      ghost var d0 := disk;
      if Exists(disk, appDir) {
        forall q | Apart(q, appDir) ensures Lookup(RemoveTree(d0, appDir).value, q) == Lookup(d0, q) {
          RemoveTreeFrame(d0, appDir, q);
        }
        RemoveTreeFrame(d0, appDir, appDir);
        disk := RemoveTree(disk, appDir).value;
      }
      assert Lookup(disk, appDir).None?;
      ghost var d1 := disk;
      assert d1 == Cleared(d0, appDir);
      if IsDirAt(d0, Parent(appDir)) {
        RecreateUnderDir(d0, appDir);
      }
      var made := MkdirP(disk, appDir);
      if made.None? {
        return false;
      }
      forall q | Apart(q, appDir) ensures Lookup(made.value, q) == Lookup(d1, q) {
        MkdirPFrame(d1, appDir, q);
      }
      MkdirPFrame(d1, appDir, appDir);
      disk := made.value;
      ok := true;
    }

    /** Replaces the entries of an existing directory. */
    method SetEntries(appDir: Path, entries: map<string, Node>)
      requires appDir != [] && IsDirAt(disk, appDir)
      modifies this
      ensures Lookup(disk, appDir) == Some(Dir(entries))
      ensures forall q :: Apart(q, appDir) ==> Lookup(disk, q) == Lookup(old(disk), q)
    {
      ghost var d0 := disk;
      ParentOfExisting(disk, appDir);
      forall q | Apart(q, appDir) ensures Lookup(SetAt(d0, appDir, Dir(entries)), q) == Lookup(d0, q) {
        LookupSetAt(d0, appDir, Dir(entries), q);
      }
      LookupSetAt(d0, appDir, Dir(entries), appDir);
      assert appDir[|appDir|..] == [];
      disk := SetAt(disk, appDir, Dir(entries));
    }

    /** `writeFileSync(path.join(appDir, filename), data)`, which throws on a name ending in '/'. */
    method WriteUpload(appDir: Path, filename: string, data: Bytes) returns (ok: bool)
      requires IsDirAt(disk, appDir)
      modifies this
      ensures var target := JoinPath(appDir, filename);
        && (ok <==> WriteFileAt(old(disk), appDir, filename, data).Some?)
        && (ok ==> disk == WriteFileAt(old(disk), appDir, filename, data).value)
        && (!ok ==> disk == old(disk))
        && (EndsWithSlash(filename) ==> !ok)
        && forall q :: Apart(q, target) ==> Lookup(disk, q) == Lookup(old(disk), q)
      ensures var target := JoinPath(appDir, filename);
        !EndsWithSlash(filename) && target != [] && Parent(target) == appDir && !IsDirAt(old(disk), target) ==>
          ok && Lookup(disk, appDir) == Some(Dir(Lookup(old(disk), appDir).value.children[target[|target| - 1] := File(data)]))
      ensures PlainSegment(filename) && !IsDirAt(old(disk), appDir + [filename]) ==>
        ok && Lookup(disk, appDir) == Some(Dir(Lookup(old(disk), appDir).value.children[filename := File(data)]))
    {
      var target := JoinPath(appDir, filename);
      if PlainSegment(filename) {
        JoinPathSegment(appDir, filename);
        assert Parent(target) == appDir && target[|target| - 1] == filename;
        assert filename[|filename| - 1] in filename;
      }
      var written := WriteFileAt(disk, appDir, filename, data);
      if written.None? {
        return false;
      }
      ghost var d0 := disk;
      forall q | Apart(q, target) ensures Lookup(written.value, q) == Lookup(d0, q) {
        LookupSetAt(d0, target, File(data), q);
      }
      if target != [] && Parent(target) == appDir {
        SetAtParent(d0, target, File(data));
      }
      disk := written.value;
      ok := true;
    }

    /** handleDeploy. */
    method HandleDeploy(contentType: Option<string>, body: Bytes, extracted: Option<map<string, Node>>)
      returns (reply: Reply)
      requires appsDir != []
      modifies this
      ensures DeployEffect(old(disk), disk, appsDir, contentType, body, extracted, reply)
    {
      var boundary := BoundaryOf(HeaderValue(contentType));
      if !Truthy(boundary) {
        return Failure(400, MissingBoundary);
      }
      var parts := ParseMultipart(body, Utf8(boundary.value));
      var req := RequestOf(parts);
      if req.NoAppName? {
        return Failure(400, MissingAppName);
      }
      if req.AppIsFile? {
        return Crashed;
      }
      reply := DeployNamed(req.appName, req.upload, extracted);
    }

    /** The rest of handleDeploy once an app name is known: recreate the app's directory, place
        the upload in it and answer with the directory's listing. */
    method DeployNamed(appName: string, upload: Option<Part>, extracted: Option<map<string, Node>>)
      returns (reply: Reply)
      requires appsDir != [] && appName != ""
      requires upload.Some? ==> upload.value.FileField?
      modifies this
      ensures NamedDeployEffect(old(disk), disk, appsDir, appName, upload, extracted, reply)
    {
      var app := SafeName(appName);
      SafeNameIsChild(appsDir, appName);
      var appDir := JoinPath(appsDir, app);
      var made := Recreate(appDir);
      if !made {
        return Crashed;
      }
      if upload.Some? {
        var f := upload.value;
        if EndsWith(f.filename, ".zip") {
          if extracted.None? {
            return Crashed;
          }
          SetEntries(appDir, extracted.value);
          var ok, entries := Flatten(extracted.value);
          SetEntries(appDir, entries);
          if !ok {
            return Crashed;
          }
        } else {
          LookupAppend(disk, appDir, [f.filename]);
          ghost var d1 := disk;
          var ok := WriteUpload(appDir, f.filename, f.data);
          if !ok {
            return Crashed;
          }
          var target := JoinPath(appDir, f.filename);
          WriteFileKeepsDirs(d1, target, f.data, appDir);
          if !StartsWith(target, appDir) {
            assert Apart(appDir, target);
          }
        }
      }
      var listing := ReadDir(disk, appDir);
      if listing.None? {
        return Crashed;
      }
      reply := Deployed(app, AppUrl(app), listing.value);
    }

    /** handleDelete: 404 when the sanitised name is missing, else remove it recursively. */
    method HandleDelete(appName: string) returns (reply: Reply)
      requires appsDir != []
      modifies this
      ensures DeleteEffect(old(disk), disk, appsDir, appName, reply)
    {
      var safe := DeleteName(appName);
      var target := JoinPath(appsDir, safe);
      if !Exists(disk, target) {
        return Failure(404, AppNotFound);
      }
      disk := RemoveTree(disk, target).value;
      reply := Removed(safe);
    }

    /** The request handler. */
    method Handle(req: Request, extracted: Option<map<string, Node>>) returns (reply: Reply)
      requires appsDir != []
      modifies this
      ensures var route := RouteOf(req, password);
        && (!route.Deploy? && !route.Delete? ==> disk == old(disk))
        && (route.Preflight? ==> reply == NoContent)
        && (route.Health? ==> reply == Healthy(appsDir))
        && (route.Denied? ==> reply == Failure(401, Unauthorized))
        && (route.List? ==>
              reply == (if ListApps(old(disk), appsDir).Some? then AppList(ListApps(old(disk), appsDir).value) else Crashed))
        && (route.NoRoute? ==> reply == Failure(404, NotFound))
        && (route.Deploy? ==> DeployEffect(old(disk), disk, appsDir, req.contentType, req.body, extracted, reply))
        && (route.Delete? ==> DeleteEffect(old(disk), disk, appsDir, route.name, reply))
    {
      var route := RouteOf(req, password);
      match route
      case Preflight =>
        reply := NoContent;
      case Health =>
        reply := Healthy(appsDir);
      case Denied =>
        reply := Failure(401, Unauthorized);
      case Deploy =>
        reply := HandleDeploy(req.contentType, req.body, extracted);
      case List =>
        var listed := ListApps(disk, appsDir);
        reply := if listed.Some? then AppList(listed.value) else Crashed;
      case Delete(name) =>
        reply := HandleDelete(name);
      case NoRoute =>
        reply := Failure(404, NotFound);
    }
  }
}
