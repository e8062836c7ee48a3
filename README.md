# internalhub core, modelled in Dafny

internalhub is a small internal app hub. It has two halves:
- A Next.js web app. Users sign in behind a site password, upload static apps, star them, and set who may open each one (public, private, password, an e-mail list or an e-mail domain).
- A stand-alone deploy server. It receives multipart uploads and writes each app into its own directory under `APPS_DIR`.

This project models the decision, parsing and bookkeeping logic of both halves, and proves what that logic promises.

Each module follows one source file:

| file | module | models |
|---|---|---|
| `access_policy.dfy` | AccessPolicy | `canAccessApp`, the per-app access decision |
| `auth_tables.dfy` | AuthTables | the magic-token table (issue, 15-minute expiry, single use) and the user table (get-or-insert) |
| `app_store.dfy` | AppStore | the in-memory store `{apps, starred}`: listing, create, update, delete, star toggling, saving uploaded files |
| `collation.dfy` | Collation | the name order used when listing, as a total order on strings |
| `slug.dfy` | Slug | the slug pipeline: lower-case, replace characters outside `[a-z0-9]` by `-`, collapse runs of `-` |
| `multipart.dfy` | Multipart | the deploy server's hand-written multipart parser, with an encoder it is proved to invert |
| `file_tree.dfy` | FileTree | a directory tree and the file-system calls the code uses: `mkdir -p`, write, `rm -r`, `readdir`, `path.join` |
| `deploy_server.dfy` | DeployServer | the deploy server: Bearer auth, the name sanitisers, deploy with replace-then-flatten, list, delete, request dispatch |
| `env.dfy` | Env | the `IH_PASSWORD \|\| 'demo123'` setting both halves read |
| `site_gate.dfy` | SiteGate | the password middleware and the login and logout route over the cookie jar |
| `upload_route.dfy` | UploadRoute | `POST /api/upload`: validation order, storage path, file bookkeeping |
| `sharing_settings.dfy` | SharingSettings | the access-settings dialog: e-mail list parsing, update builder, domain field, share identifier |
| `edit_app_modal.dfy` | EditAppModal | the edit dialog: tag parsing and the saved payload |
| `app_card.dfy` | AppCard | relative-date buckets and the share and open links |
| `text.dfy` | Text | the JavaScript string operations the code relies on: `trim`, `toLowerCase`, `split`, `join`, `indexOf`, `replace`, number rendering |

The code mutates state in several places. Those parts are classes whose methods state the whole new state:
- `Store` (apps, star list, uploads tree)
- `MagicTokenTable` and `UserTable`
- `Server` (the apps tree)
- `CookieStore`

Each method's `ensures` ties the new state to a specification function, such as `Updated`, `Toggled`, `Saved`, `Flattened`, `RemoveTree` or `Parsed`. Lemmas next to those functions prove what the source promises.

Loops are methods with invariants:
- the multipart `while` loop;
- the flatten loop over the wrapper's entries;
- the file-writing loop of `saveUploadedFiles`;
- the upload route's `for` loop;
- the insertion sort standing in for `Array.prototype.sort`.

Clocks, random values, UUIDs, database insert failures and the result of `unzip` are parameters.

## Model

| member | source | states |
|---|---|---|
| AccessPolicy.CanAccessApp | web/src/lib/supabase.ts:162-204 | allowed iff no reason; the owner is always allowed; for anyone else: public allowed, private / password denied with their reasons, email_list and domain without an e-mail give 'email_required', email_list allowed iff the address is in the list, domain allowed iff the part after the first '@' equals `access_domain`, any other type 'Unknown access type' |
| AccessPolicy.DomainDefinedIffAt | web/src/lib/supabase.ts:195 | `userEmail.split('@')[1]` is defined exactly when the address contains '@' |
| AccessPolicy.DomainOfAddress | web/src/lib/supabase.ts:195 | the domain of `local@rest` is `rest` up to its next '@' (all of `rest` when it has none) |
| AccessPolicy.NoAtMatchesUnsetDomain | web/src/lib/supabase.ts:191-199 | an address without '@' is admitted to a domain app that has no `access_domain` (undefined equals undefined) |
| AccessPolicy.DomainMatchIsExact | web/src/lib/supabase.ts:191-199 | a non-owner `local@domain` is admitted iff `domain` equals `access_domain` exactly |
| AccessPolicy.DomainIsCaseSensitive | web/src/lib/supabase.ts:196 | `bob@Acme.com` is refused by an `acme.com` app while `bob@acme.com` is admitted |
| AccessPolicy.EmailListIsCaseSensitive | web/src/lib/supabase.ts:186 | list membership is exact string membership: a differently cased address is refused |
| AccessPolicy.EmptyEmailIsNoEmail | web/src/lib/supabase.ts:167-194 | an empty e-mail is treated exactly like a missing one |
| AuthTables.Matching | web/src/lib/supabase.ts:140-146 | the indices, in order, of exactly the rows with this token, unused and not yet expired |
| AuthTables.StripDashes | web/src/lib/supabase.ts:114 | `randomUUID().replace(/-/g, '')`: no dash left, never longer than the input |
| AuthTables.StripDashesKeepsDashFree | web/src/lib/supabase.ts:114 | a string without dashes comes back unchanged |
| AuthTables.StripDashesCounts | web/src/lib/supabase.ts:114 | every character other than '-' is kept exactly as often as it occurred |
| AuthTables.StripDashesAppend | web/src/lib/supabase.ts:114 | dashes are dropped in place, so the other characters keep their order |
| AuthTables.MagicTokenTable.CreateMagicToken | web/src/lib/supabase.ts:110-133 | a failed insert returns null and stores nothing; otherwise one row `{email, token, app_id, expires_at = now + 15 min}`, unused, is appended and its token returned |
| AuthTables.MagicTokenTable.VerifyMagicToken | web/src/lib/supabase.ts:137-158 | succeeds iff exactly one stored row is redeemable; then only that row gets `used_at = now` and its email and app id are returned; otherwise nothing changes |
| AuthTables.NoneRedeemable | web/src/lib/supabase.ts:140-150 | with no unused, unexpired row for the token, verification finds nothing |
| AuthTables.RedeemedTokenIsSpent | web/src/lib/supabase.ts:152-158 | after a successful verification the same token never verifies again, at that time or later |
| AuthTables.FreshTokenWindow | web/src/lib/supabase.ts:116-146 | a newly issued token verifies strictly before its expiry time and never from then on |
| AuthTables.WithEmail | web/src/lib/supabase.ts:79-83 | the indices of exactly the users with this e-mail |
| AuthTables.NoUserWithEmail | web/src/lib/supabase.ts:79-85 | no user with the e-mail means the lookup finds nothing |
| AuthTables.UserTable.GetOrCreateUser | web/src/lib/supabase.ts:75-107 | a unique existing user is returned as read and only its `last_login` is stamped; otherwise `{email, name}` is inserted and returned, or null with nothing changed when the insert fails |
| AuthTables.InsertedUserIsFound | web/src/lib/supabase.ts:94-106 | a user inserted under a new e-mail is the only one a later lookup finds |
| AppStore.FindIndex | web/src/lib/store.ts:136 | `findIndex`: -1 iff no app has the id, otherwise the first app with it |
| AppStore.Annotated | web/src/lib/store.ts:65-68 | `is_starred` becomes membership in the star list; every other field is kept |
| AppStore.AnnotateAll | web/src/lib/store.ts:65-68 | every app annotated, in order |
| AppStore.Listed | web/src/lib/store.ts:64-82 | an app is listed iff it is a stored app (annotated) that matches the lower-cased search when one is given and is starred when only starred apps are asked for |
| AppStore.ListedAreStoredApps | web/src/lib/store.ts:64-82 | every listed app is a stored app whose star flag is its membership in the star list |
| AppStore.PrecedesTotal | web/src/lib/store.ts:85-89 | the listing order (name, or newest first) relates any two apps |
| AppStore.PrecedesTransitive | web/src/lib/store.ts:85-89 | the listing order is transitive |
| AppStore.InsertSorted | web/src/lib/store.ts:85-89 | inserting into a sorted list keeps it sorted and adds exactly that app |
| AppStore.SortApps | web/src/lib/store.ts:85-89 | the result is sorted by the requested order and is a permutation of the input |
| AppStore.UpdatedFields | web/src/lib/store.ts:140-144 | every supplied field of the update (id, slug, name, description, status, storage path, tags, creation time, star count, star flag, publication time) is overwritten, every absent one kept, and `updated_at` is now whatever the update says |
| AppStore.EmptyUpdate | web/src/lib/store.ts:140-144 | an empty update changes only `updated_at` |
| AppStore.PublishedAtSetOnce | web/src/lib/store.ts:146-148 | `published_at` is set to now only by a publishing update of an app without one; once set it is never changed by an update that does not supply `published_at` (the update route never does) |
| AppStore.Toggled | web/src/lib/store.ts:183-189 | the id is added when absent and one occurrence removed when present |
| AppStore.ToggleFlips | web/src/lib/store.ts:181-193 | the id's membership flips, no other id changes, and the list stays free of duplicates |
| AppStore.ToggleTwice | web/src/lib/store.ts:181-193 | toggling twice restores the membership of every id (and the list itself when the id was absent) |
| AppStore.WriteAllPlain | web/src/lib/store.ts:205-210 | plain file names written into a directory all succeed; each name holds the data of its last file; other entries are kept |
| AppStore.SavedFilesAreFound | web/src/lib/store.ts:196-213 | saving under a fresh plain directory of the uploads directory succeeds, and each file is read back from `uploads/slug/name` |
| AppStore.WriteAllStopsAtSlash | web/src/lib/store.ts:205-210 | one file name ending in '/' anywhere in the list makes the loop fail: its directory is made, then `fs.writeFile` throws on the path `path.join` leaves ending in '/' |
| AppStore.SavedRefusesTrailingSlash | web/src/lib/store.ts:196-213 | saveUploadedFiles throws, on any tree, when one of the file names ends in '/' |
| AppStore.Store.GetApps | web/src/lib/store.ts:59-91 | the result is a permutation of the listed apps, sorted by name or by creation time, newest first |
| AppStore.Store.constructor | web/src/lib/store.ts:46-49 | an empty store (no apps, no stars) satisfies the store invariant: unique app ids, no id starred twice |
| AppStore.Store.GetApp | web/src/lib/store.ts:94-102 | null iff no app has the id, otherwise the first app with the id (the one `find` returns) with its star flag |
| AppStore.Store.CreateApp | web/src/lib/store.ts:104-132 | exactly one app is appended: slug of the name, status 'draft', no tags, no stars, not starred; nothing else changes; the store invariant is kept when the minted id is new |
| AppStore.Store.UpdateApp | web/src/lib/store.ts:134-156 | an unknown id returns null and changes nothing; otherwise only the first matching app is replaced by its update; the store invariant is kept by an update that leaves the id alone |
| AppStore.Store.DeleteApp | web/src/lib/store.ts:158-179 | false with nothing changed for an unknown id; otherwise the app is cut out (order kept), its id filtered out of the star list and its upload directory removed when present; the store invariant is kept, and afterwards no app has the id |
| AppStore.Store.RemoveUploads | web/src/lib/store.ts:166-173 | the upload directory is removed recursively when the app has a storage path and the removal succeeds; otherwise the tree is unchanged (the error is swallowed); apps and stars are untouched |
| AppStore.Store.ToggleStar | web/src/lib/store.ts:181-193 | returns true iff the app was not starred before; the star list becomes the toggled list; in a store with its invariant the id is starred afterwards iff the result is true, no other id changes, and the invariant is kept |
| AppStore.Store.SaveUploadedFiles | web/src/lib/store.ts:196-213 | the tree becomes the one `Saved` describes (each write refused when its name ends in '/'); the slug is returned iff no step failed |
| AppStore.CreatedAppIsFound | web/src/lib/store.ts:128 | an appended app with a new id is the one later lookups find |
| AppStore.DeletedAppIsGone | web/src/lib/store.ts:174 | after the splice no app has the id, ids stay unique and every other app remains |
| AppStore.DeletedIdUnstarred | web/src/lib/store.ts:175 | after the filter the deleted id is not starred |
| AppStore.FilterKeepsNoDuplicates | web/src/lib/store.ts:175 | filtering the star list never makes an id appear twice |
| AppStore.DeleteKeepsValid | web/src/lib/store.ts:160-175 | cutting out the first app with the id keeps ids unique and leaves no app with that id; filtering the id out of a duplicate-free star list keeps it duplicate-free |
| Collation.LexLeReflexive | web/src/lib/store.ts:86 | the name order is reflexive |
| Collation.LexLeTotal | web/src/lib/store.ts:86 | the name order relates any two names |
| Collation.LexLeTransitive | web/src/lib/store.ts:86 | the name order is transitive |
| Collation.LexLeAntisymmetric | web/src/lib/store.ts:86 | names ordered both ways are equal |
| Slug.DashOutsideAlnum | web/src/lib/store.ts:112 | `replace(/[^a-z0-9]/g, '-')` keeps the length and leaves only `[a-z0-9-]` |
| Slug.DashOutsideSlugChars | deploy/server.js:166 | `replace(/[^a-z0-9-]/g, '-')` keeps the length and leaves only `[a-z0-9-]` |
| Slug.DashOutsideAgree | deploy/server.js:86 | the two replacements agree, so the deploy sanitiser is the store's slug |
| Slug.CollapseDashes | web/src/lib/store.ts:112 | `replace(/-+/g, '-')` is no longer than its input, empty iff the input is, starts with '-' iff the input does, and has no "--"; with CollapseKeepsNonDash, CollapseFixedPoint and CollapseDropsDoubledDash it is exactly "each run of '-' becomes one '-'" |
| Slug.CollapseDropsDoubledDash | web/src/lib/store.ts:112 | deleting one '-' of any "--" leaves the collapsed string unchanged: a run is shortened, never dropped, so "a--b" collapses to "a-b" as "a-b" does |
| Slug.CollapseKeepsNonDash | web/src/lib/store.ts:112 | collapsing keeps every character other than '-', in order |
| Slug.CollapseFixedPoint | web/src/lib/store.ts:112 | collapsing changes nothing in a string without "--" |
| Slug.CollapseKeepsSlugChars | web/src/lib/store.ts:112 | collapsing keeps a string within `[a-z0-9-]` |
| Slug.SlugShape | web/src/lib/store.ts:112 | a slug is over `[a-z0-9-]`, has no "--", and is empty iff the name is |
| Slug.SlugHasNoPathSyntax | web/src/lib/store.ts:112 | a slug contains neither '/' nor '.' |
| Slug.SlugIdempotent | web/src/lib/store.ts:112 | slugging a slug changes nothing |
| Slug.SlugKeepsAlnum | web/src/lib/store.ts:112 | a slug keeps the letters and digits of the lower-cased name, in order |
| Multipart.Slice | deploy/server.js:35 | `Buffer.slice`: the sub-range for in-range bounds, never longer than the buffer |
| Multipart.Decode | deploy/server.js:37 | `toString()`, one character per byte |
| Multipart.DecodeEncode | deploy/server.js:48 | decoding bytes that encode byte-sized text gives the text back |
| Multipart.Utf8Char | deploy/server.js:28 | a character's UTF-8 bytes: 1 to 4 of them, and 1 exactly for ASCII |
| Multipart.Utf8 | deploy/server.js:28 | `Buffer.from(string)`: at least one byte per character |
| Multipart.Utf8OfAscii | deploy/server.js:28 | for an ASCII boundary the UTF-8 bytes are the characters' codes and decode back to it |
| Multipart.Utf8Longer | deploy/server.js:28 | a non-ASCII character makes the bytes longer than the string |
| Multipart.CaptureAt | deploy/server.js:40-41 | a match of `key="…"` at one position: a non-empty capture without '"' followed by '"' |
| Multipart.Capture | deploy/server.js:40-41 | the first match of `/name="([^"]+)"/` (or the filename pattern): a non-empty capture without '"' |
| Multipart.CaptureIs | deploy/server.js:40-41 | the first position that matches gives the capture |
| Multipart.CaptureNone | deploy/server.js:40-41 | no matching position means no capture |
| Multipart.EntryOf | deploy/server.js:40-50 | a named part gives a `{filename, data}` entry when a file name is present, else its text |
| Multipart.PartEntry | deploy/server.js:35-50 | headers up to the first blank line, content after it; only named parts give an entry |
| Multipart.PartWithoutBlankLine | deploy/server.js:36-38 | a part with no blank line reads its headers from all but its last byte and its content from its fourth byte on (`indexOf` returned -1) |
| Multipart.ParseStep | deploy/server.js:31-53 | one loop turn takes the part before the next marker (minus its CRLF) and moves past that marker and its CRLF |
| Multipart.ParseMultipart | deploy/server.js:26-56 | the loop's result is `Parsed`: the parts between markers added in order, a later part replacing an earlier one of the same name |
| Multipart.CollectLastWins | deploy/server.js:43-50 | when names repeat, the last field with a name is the one kept |
| Multipart.NameOfDisposition | deploy/server.js:40 | the name pattern finds the field's name in an encoded header |
| Multipart.FilenameOfDisposition | deploy/server.js:41 | the file-name pattern finds the file name of a file part and nothing in a text part |
| Multipart.PartEntryOfField | deploy/server.js:35-50 | an encoded part gives back exactly its field |
| Multipart.ParseEncodedBody | deploy/server.js:26-56 | parsing an encoded body gives back its fields, the last one winning for each name, when no part contains the marker |
| FileTree.LookupSetAt | deploy/server.js:116 | after a write at p: below p is the new node, paths apart from p are unchanged, ancestors stay directories |
| FileTree.LookupRemoveAt | deploy/server.js:175 | after a removal at p: nothing is found below p, paths apart from p are unchanged |
| FileTree.JoinPathSegment | deploy/server.js:87 | `path.join(dir, name)` for a plain name is the child `dir/name` |
| FileTree.JoinPathEmpty | deploy/server.js:167 | `path.join(dir, '')` is `dir` itself |
| FileTree.JoinPathPlain | deploy/server.js:87 | the segments `path.join` names are never '.', '..' or empty; a trailing '/' that `path.join` keeps is not a segment, and `WriteFileAt` refuses it |
| FileTree.ResolvePlain | deploy/server.js:87 | resolving segments keeps a path free of '.', '..' and empty segments |
| FileTree.MkdirP | deploy/server.js:93 | `mkdirSync(recursive)`: on success a directory exists there; an existing directory is left alone |
| FileTree.MkdirPFrame | deploy/server.js:93 | mkdir -p changes nothing outside the path's ancestors; a missing path becomes an empty directory |
| FileTree.WriteFile | deploy/server.js:116 | on success the path holds the file |
| FileTree.WriteFileAt | deploy/server.js:116 | `writeFileSync(path.join(dir, name))`: a success means the name does not end in '/' and the joined path holds the file |
| FileTree.TrailingSlashNeverWritten | deploy/server.js:116 | "name/" joins to the same segments as a plain "name", yet its write always throws |
| FileTree.WriteFileKeepsDirs | deploy/server.js:116 | a successful `writeFileSync` never removes a directory, and its target never lies on the way to one |
| FileTree.RemoveTree | deploy/server.js:175 | `rmSync(recursive)` succeeds iff the path exists |
| FileTree.RemoveTreeFrame | deploy/server.js:175 | after the removal the path is gone and every path apart from it is unchanged |
| FileTree.ReadDir | deploy/server.js:104 | `readdirSync` succeeds iff the path is a directory |
| Env.Password | deploy/server.js:17 | the configured password when set and non-empty, else 'demo123'; never empty |
| DeployServer.BearerAccepted | deploy/server.js:187-191 | `Bearer <password>` is accepted |
| DeployServer.BarePasswordAccepted | deploy/server.js:187-191 | the bare password is accepted too (when it does not itself contain "Bearer "): `replace` finds nothing to remove |
| DeployServer.BearerAnywhereIsDropped | deploy/server.js:189 | the first "Bearer " is removed wherever it stands: the password with "Bearer " inserted after a 'B'-free start is accepted, e.g. "demo123Bearer " for "demo123" |
| DeployServer.MissingHeaderRefused | deploy/server.js:187-191 | no Authorization header is refused (the password is never empty) |
| DeployServer.DeleteName | deploy/server.js:166 | the delete sanitiser keeps the length and yields only `[a-z0-9-]` |
| DeployServer.SafeNameIsSlug | deploy/server.js:86 | the deploy sanitiser equals the store's slug function |
| DeployServer.SlugCharsArePlain | deploy/server.js:87 | a non-empty `[a-z0-9-]` name is a plain path segment |
| DeployServer.SafeNameIsChild | deploy/server.js:76-87 | a non-empty app name gives a non-empty `[a-z0-9-]` name without "--", and `appDir` is a direct child of `APPS_DIR` |
| DeployServer.DeleteTarget | deploy/server.js:166-167 | a non-empty name targets a child of `APPS_DIR`; the empty name targets `APPS_DIR` itself |
| DeployServer.DeleteDoesNotCollapse | deploy/server.js:166 | two adjacent disallowed characters become "--" in the delete name, which then differs from the deployed name |
| DeployServer.BoundaryOf | deploy/server.js:67 | `split('boundary=')[1]` is defined iff the header contains `boundary=`, and it holds no further `boundary=` |
| DeployServer.BoundaryOfHeader | deploy/server.js:67 | a header `…boundary=B` gives B |
| DeployServer.UploadOf | deploy/server.js:97 | only a `files` part with a non-empty file name is acted on |
| DeployServer.RequestOf | deploy/server.js:76-83 | a named request carries the trimmed, non-empty app name |
| DeployServer.Flatten | deploy/server.js:103-114 | the loop succeeds iff `Flattened` does, and then leaves exactly its result |
| DeployServer.FlattenKeepsOthers | deploy/server.js:104-106 | unless there is exactly one entry and it is a directory, the tree is untouched |
| DeployServer.FlattenWrapper | deploy/server.js:105-113 | a single wrapper directory is replaced by its own children |
| DeployServer.ListApps | deploy/server.js:139-161 | the listing exists iff `APPS_DIR` is a directory |
| DeployServer.ListedAreDirectories | deploy/server.js:141-150 | exactly the directories directly below `APPS_DIR` are listed, each with its own entry count |
| DeployServer.AppSegment | deploy/server.js:236 | `pathname.split('/')[3]` under `/api/apps/` is the first segment after that prefix |
| DeployServer.AppSegmentExamples | deploy/server.js:235-236 | `/api/apps/site` names "site", `/api/apps/` names "" |
| DeployServer.RouteOf | deploy/server.js:194-244 | OPTIONS is answered first, /health next, both without auth; any other request without the password is refused; with it, POST /api/deploy deploys, GET /api/apps lists, DELETE under `/api/apps/` deletes the path segment after it, and exactly the remaining requests are not found |
| DeployServer.WritesNeedAuth | deploy/server.js:215-239 | the deploy and delete routes are reached only with the password, by POST or DELETE |
| DeployServer.DeleteRemovesOnlyTarget | deploy/server.js:164-175 | deleting a named app leaves every path apart from its directory unchanged |
| DeployServer.EmptyDeleteWipesAppsDir | deploy/server.js:166-175 | deleting the empty name removes `APPS_DIR` and everything below it |
| DeployServer.SingleFileEscapes | deploy/server.js:116 | a single file named `../x` is written beside the app directory, not inside it |
| DeployServer.Server.constructor | deploy/server.js:17-23 | a server exists only after start-up succeeded; it holds the configured password, and `APPS_DIR` exists, created with its missing ancestors when it did not |
| DeployServer.Server.Recreate | deploy/server.js:90-93 | succeeds exactly when `mkdir -p` succeeds on the tree after the removal, and always when the parent is a directory; on success the app directory is an empty directory; paths apart from it are unchanged |
| DeployServer.RecreateUnderDir | deploy/server.js:90-93 | removing and recreating a directory whose parent is a directory cannot fail |
| DeployServer.PlainUploadCompletes | deploy/server.js:86-117 | a single file with a plain name is always written into the recreated app directory when `APPS_DIR` is a directory |
| DeployServer.SlashedUploadCrashes | deploy/server.js:116-135 | a single file named "name/" targets the same path as "name" but its write throws, so the deploy answers 500 |
| DeployServer.EscapingUploadDeploys | deploy/server.js:116-129 | a single file named `../x` makes the deploy answer 200 unless `APPS_DIR/x` is a directory; the file lands at `APPS_DIR/x` and the app directory stays empty |
| DeployServer.Server.SetEntries | deploy/server.js:99-114 | the app directory holds exactly the given entries; paths apart from it are unchanged |
| DeployServer.Server.WriteUpload | deploy/server.js:116 | the write at `path.join(appDir, filename)` succeeds or changes nothing, and touches nothing apart from its target; it always fails on a name ending in '/'; for any other name, a target directly inside the directory that is not itself a directory is always written and becomes that entry of the listing |
| DeployServer.Server.HandleDeploy | deploy/server.js:64-136 | missing boundary or app name gives 400, and an app sent as a file gives 500, with the tree unchanged; a named deploy answers 200 or 500 and replaces the app directory by an empty one or the flattened extraction, or writes the single file at `path.join(appDir, filename)`, answering 500 when that name ends in '/'; nothing else changes, the single file's target being the one path that may lie outside the app directory; it answers 200 whenever `APPS_DIR` is a directory and the upload is absent, an archive that unpacks and flattens, or a single file the write accepts, `../x` included |
| DeployServer.Server.DeployNamed | deploy/server.js:86-135 | with an app name: 200 or 500; the sanitised app directory is recreated and holds an empty directory, the flattened extraction, or the single file when `path.join` puts it directly inside; a single file is written at `path.join(appDir, filename)`, a name ending in '/' giving 500, and when that lies outside the app directory the app directory stays empty; nothing apart from the app directory and that target changes; the 200 carries the name, its URL and the directory listing, and is guaranteed when `APPS_DIR` is a directory and the upload can be placed |
| DeployServer.Server.HandleDelete | deploy/server.js:164-184 | 404 with nothing changed when the target is missing; otherwise the reply names it and the tree is exactly the old one with the target removed recursively |
| DeployServer.Server.Handle | deploy/server.js:194-244 | the reply of each route: 204, health, 401, the listing or 500, 404; the deploy and delete routes answer and change the tree exactly as handleDeploy and handleDelete do; no other route changes the tree |
| SiteGate.Middleware | web/src/middleware.ts:5-26 | passes iff the path is public or the `ih-auth` cookie says 'authenticated'; otherwise 401 for `/api/` paths and a login redirect for the rest |
| SiteGate.PublicRoutesAreExact | web/src/middleware.ts:9-10 | '/', '/login', '/api/login' are public, '/login/' and '/dashboard' are not, and `/_next…` and `/favicon…` paths are |
| SiteGate.AuthCookie | web/src/app/api/login/route.ts:14-20 | the cookie says 'authenticated' and lives 30 days |
| SiteGate.CookieStore.Login | web/src/app/api/login/route.ts:4-29 | 400 for an unreadable body; the right password sets the cookie; a wrong one gives 401 and leaves the jar unchanged |
| SiteGate.CookieStore.Logout | web/src/app/api/login/route.ts:31-36 | the `ih-auth` cookie is removed |
| SiteGate.LoginOpensEverything | web/src/middleware.ts:15-25 | after a login every path passes |
| SiteGate.LogoutClosesProtected | web/src/middleware.ts:15-22 | after a logout no protected path passes, and protected API paths get 401 |
| SiteGate.CookieValueIsExact | web/src/middleware.ts:17 | a cookie with any other value counts as no cookie |
| UploadRoute.StoragePathIsPlain | web/src/app/api/upload/route.ts:20-22 | the storage path is one plain directory name over `[a-z0-9-]` |
| UploadRoute.StoragePathsDiffer | web/src/app/api/upload/route.ts:19-22 | the same name uploaded at two times gets two storage paths |
| UploadRoute.Names | web/src/app/api/upload/route.ts:25-32 | the file names, in input order |
| UploadRoute.Uploads | web/src/app/api/upload/route.ts:25-32 | the files handed to the store, in input order, with their data |
| UploadRoute.CollectFiles | web/src/app/api/upload/route.ts:25-32 | the loop hands the store every file's name and data, in input order, and reports the file names in the same order |
| UploadRoute.UploadApp | web/src/app/api/upload/route.ts:4-63 | no files gives 400 first, then a missing name 400; the files are saved before the app is created; a failed save gives 500 with no app, and any file name ending in '/' makes the save fail; success returns the new draft app with `storage_path` = slug-timestamp, the file names in order, and `/a/<id>` |
| SharingSettings.Identifier | web/src/components/SharingSettings.tsx:37 | the slug when non-empty, else the id |
| SharingSettings.KeepEmails | web/src/components/SharingSettings.tsx:59-60 | every kept entry is trimmed, non-empty and contains '@' |
| SharingSettings.KeepEmailsAppend | web/src/components/SharingSettings.tsx:59-60 | filtering keeps the input order |
| SharingSettings.KeepEmailEntries | web/src/components/SharingSettings.tsx:59-60 | entries that are already valid are all kept unchanged |
| SharingSettings.ParseEmails | web/src/components/SharingSettings.tsx:57-60 | every parsed entry is trimmed, non-empty, contains '@' and holds no comma or newline |
| SharingSettings.EmailsRoundTrip | web/src/components/SharingSettings.tsx:30-60 | parsing the list joined with newlines gives the list back when every entry is valid and separator-free |
| SharingSettings.HandleSave | web/src/components/SharingSettings.tsx:47-72 | refused with the first applicable message; otherwise the updates carry the access type and exactly the field of that type, non-empty |
| SharingSettings.OpenAndClosedNeedNothing | web/src/components/SharingSettings.tsx:47-72 | public and private are never refused |
| SharingSettings.DomainInputDropsOneAt | web/src/components/SharingSettings.tsx:226 | the domain field removes exactly one '@' when there is one, and otherwise changes nothing |
| EditAppModal.PieceTag | web/src/components/EditAppModal.tsx:32-33 | one comma-separated piece yields at most one tag, non-empty, trimmed and lower-case |
| EditAppModal.KeepTags | web/src/components/EditAppModal.tsx:32-33 | every kept tag is non-empty, trimmed and lower-case |
| EditAppModal.KeepTagsAppend | web/src/components/EditAppModal.tsx:30-33 | tag parsing keeps the input order |
| EditAppModal.ParseTags | web/src/components/EditAppModal.tsx:30-33 | every parsed tag is non-empty, trimmed and lower-case |
| EditAppModal.TagsRoundTrip | web/src/components/EditAppModal.tsx:15-33 | parsing the tags joined with ", " gives them back when they are lower-case, trimmed, non-empty and comma-free |
| EditAppModal.HandleSave | web/src/components/EditAppModal.tsx:19-43 | a blank name is refused with 'Name is required'; otherwise the name is sent trimmed, the description trimmed or null, the tags parsed or null |
| AppCard.DiffDays | web/src/components/AppCard.tsx:40-41 | the whole number of days, rounded down, so that d days ≤ elapsed < d + 1 days |
| AppCard.FormatDateBuckets | web/src/components/AppCard.tsx:37-47 | under one day 'Today', under two 'Yesterday', under seven "N days ago", else the locale date |
| AppCard.FutureDatesGoNegative | web/src/components/AppCard.tsx:43-45 | a future date reads "-N days ago" with N ≥ 1 |
| AppCard.ShareUrl | web/src/components/AppCard.tsx:30 | the origin followed by the open link |
| AppCard.OpenHref | web/src/components/AppCard.tsx:146 | `/a/` followed by the app id |
| AppCard.LinksIdentifyApps | web/src/components/AppCard.tsx:30 | two apps share a link iff their ids agree, whatever their slugs |
| Text.Trim | web/src/components/EditAppModal.tsx:32 | `trim()`: the result is trimmed and is the input minus leading and trailing white space |
| Text.TrimmedIsFixed | web/src/components/EditAppModal.tsx:32 | trimming a trimmed string changes nothing |
| Text.TrimPadded | web/src/components/EditAppModal.tsx:32 | white space around a trimmed, non-empty string is removed |
| Text.TrimOfAllSpace | web/src/components/EditAppModal.tsx:20 | a string of white space trims to empty |
| Text.ToLowerIsLower | web/src/lib/store.ts:72 | `toLowerCase()` leaves no upper-case letter and keeps everything else |
| Text.ToLowerOfLower | web/src/lib/store.ts:72 | lower-casing a lower-case string changes nothing |
| Text.Split | web/src/components/SharingSettings.tsx:58 | `split`: at least one piece, none holding a separator |
| Text.SplitLength | web/src/lib/supabase.ts:195 | there is more than one piece iff the string contains a separator |
| Text.SplitJoin | web/src/components/SharingSettings.tsx:30-58 | splitting a join gives the pieces back (after the separator's padding) |
| Text.IndexOf | deploy/server.js:32 | `indexOf`: -1 or a match at or after `from`, and no earlier match |
| Text.Position | web/src/lib/store.ts:183 | `indexOf` on a list: -1 iff absent, else the first occurrence |
| Text.Filter | web/src/lib/store.ts:175 | `filter`: exactly the kept elements, never more occurrences than before |
| Text.ReplaceFirstCharRemovesOne | web/src/components/SharingSettings.tsx:226 | replacing the first occurrence of a character by nothing removes exactly one occurrence |
| Text.NatToDecimal | web/src/app/api/upload/route.ts:22 | the decimal rendering is digits only, with no leading zero |
| Text.DecimalRoundTrip | web/src/app/api/upload/route.ts:22 | reading the rendered digits back gives the number |
| Text.DecimalInjective | web/src/app/api/upload/route.ts:22 | different numbers render differently |

## Left out

- I/O around the logic is not modelled: the HTTP servers, CORS headers, logging and `listen`; the JSON persistence of the store (`readStore` / `writeStore`); the Supabase client; the `fetch` calls of the components; React state.
- `unzip`: its result is a parameter (the extracted entries, or failure). The temporary zip file and its `unlinkSync` are not modelled.
- URL parsing: the handlers receive the pathname already parsed.
- Error texts: `err.message` of a thrown error is modelled as a 500 reply without its text (`Crashed`).
- Request-body parse failures are not modelled in detail. A parse failure in the login route is a `None` body. A JSON `password` that is not a string is a body without a password.
- Browser cookie expiry is not modelled. The jar keeps a cookie until logout; `maxAge` is only recorded.
- `Text.ToLower`: models `toLowerCase` on ASCII letters only. Other scripts' case mappings are not modelled.
- `Text.Trim`: uses the JavaScript white-space set. Unicode normalisation is not modelled.
- `Multipart.Decode`: decodes one character per byte. It does not model UTF-8 decoding of non-ASCII bytes in headers and text fields.
- `Collation.LexLe`: orders names by code point. It stands in for `localeCompare`, whose locale rules are not modelled.
- `AppStore.Store.GetApps`: promises the sorted order, but not that JavaScript's stable sort keeps ties in input order.
- `AppStore.Precedes`: dates are integer milliseconds. ISO date formatting and parsing is not modelled.
- `AppCard.FormatDate`: the locale date string (`toLocaleDateString`) is an opaque parameter.
- `DeployServer.Flatten`: `readdirSync` order is not modelled; a set of entries stands for it. On a failed rename, the partial state is left unspecified. A rename fails only when its target already exists, which can happen only when an entry of the wrapper has the wrapper's own name.
- `DeployServer.ListApps`: reports each directory's entry count, but not the `mtime` of each directory.
- `DeployServer.Server.constructor`: `APPS_DIR` must not be the file-system root. With an empty path, the tree model would have no parent for the app directories.
- `AppStore.Updated` and `AppStore.Store.GetApps`: an app's description is always a string here. The edit dialog can send `description: null`, the update route forwards it, and `updateApp` stores it. `getApps` then throws on `app.description.toLowerCase()` for every search the name does not match. The same path stores `tags: null` when every tag is removed. The model has no null description or tags and no such crash.
- The `config.matcher` of the middleware is not modelled. It skips `_next/static`, `_next/image` and `favicon.ico`, and the middleware itself already lets those through by their prefixes.
- `DeployServer.Server.HandleDeploy`: `parts.app` is a file part when the form sends `app` as a file. It throws on `trim`, and the model says only that the reply is a 500.
- `UploadRoute.UploadApp`: every form value here is a string and every `files` entry a file. A form whose `appName` is a file passes the emptiness check and makes `toLowerCase` throw, and a `files` entry that is a string makes `arrayBuffer` throw; both end in the route's 500 reply, which the model never produces on those paths. A `description` sent as a file is truthy and is stored as it is, where the model has a string.
- The behaviour the code does not have is not modelled: case-insensitive e-mail matching, rejecting `..` in uploaded file names, and gate-grant sessions.
- `AuthTables.MagicTokenTable.VerifyMagicToken`: `.single()` errors unless exactly one row matches, so two redeemable rows with the same token both stay unusable. The model follows that.
- Concurrency is not modelled: every operation runs alone.
