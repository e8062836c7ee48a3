/** POST /api/upload of web/src/app/api/upload/route.ts: validate the form, derive the storage
    path from the app name and the clock, save the files, then create the app record. The
    form fields arrive already parsed; the two clock readings (the route's and createApp's)
    and the random id suffix are parameters. */
module UploadRoute {
  import opened Text
  import opened Slug
  import opened FileTree
  import opened AppStore

  const NoFiles := "No files provided"
  const NoAppName := "App name is required"
  const SomethingWrong := "Something went wrong"

  /** A `File` of the form data. */
  datatype FormFile = FormFile(name: string, data: Bytes)

  datatype UploadReply =
    | Uploaded(app: App, files: seq<string>, url: string)
    | Error(status: int, message: string)

  /** `${appSlug}-${timestamp}`. */
  function StoragePath(appName: string, timestamp: int): string
  {
    Slugify(appName) + "-" + IntToDecimal(timestamp)
  }

  /** The storage path is one plain directory name: slug characters, a '-', then the digits of
      the timestamp (after a '-' when it is negative). */
  lemma StoragePathIsPlain(appName: string, timestamp: int)
    ensures AllSlugChars(StoragePath(appName, timestamp))
    ensures PlainSegment(StoragePath(appName, timestamp))
  {
    SlugShape(appName);
    var d := NatToDecimal(if timestamp < 0 then -timestamp else timestamp);
    assert forall i :: 0 <= i < |d| ==> IsSlugChar(d[i]) by {
      forall i | 0 <= i < |d| ensures IsSlugChar(d[i]) {
        assert IsDigit(d[i]);
      }
    }
    var p := StoragePath(appName, timestamp);
    assert p[|Slugify(appName)|] == '-';
  }

  /** Two uploads of the same name at different times get different directories. */
  lemma StoragePathsDiffer(appName: string, t1: nat, t2: nat)
    requires t1 != t2
    ensures StoragePath(appName, t1) != StoragePath(appName, t2)
  {
    var prefix := Slugify(appName) + "-";
    if StoragePath(appName, t1) == StoragePath(appName, t2) {
      assert NatToDecimal(t1) == StoragePath(appName, t1)[|prefix|..];
      assert NatToDecimal(t2) == StoragePath(appName, t2)[|prefix|..];
      DecimalInjective(t1, t2);
    }
  }

  /** The names of the files, in order. */
  function Names(files: seq<FormFile>): (r: seq<string>)
    ensures |r| == |files| && forall i :: 0 <= i < |files| ==> r[i] == files[i].name
  {
    seq(|files|, i requires 0 <= i < |files| => files[i].name)
  }

  /** The files handed to saveUploadedFiles. */
  function Uploads(files: seq<FormFile>): (r: seq<Upload>)
    ensures |r| == |files|
    ensures forall i :: 0 <= i < |files| ==> r[i].name == files[i].name && r[i].data == files[i].data
  {
    seq(|files|, i requires 0 <= i < |files| => Upload(files[i].name, files[i].data))
  }

  /** `formData.get('description') || ''`. */
  function DescriptionOf(description: Option<string>): string
  {
    if Truthy(description) then description.value else ""
  }

  /** The route's loop over the files: what is handed to the store, and the names reported. */
  method CollectFiles(files: seq<FormFile>) returns (filesToSave: seq<Upload>, uploadedFiles: seq<string>)
    ensures filesToSave == Uploads(files) && uploadedFiles == Names(files)
  {
    filesToSave := [];
    uploadedFiles := [];
    for i := 0 to |files|
      invariant filesToSave == Uploads(files[..i])
      invariant uploadedFiles == Names(files[..i])
    {
      filesToSave := filesToSave + [Upload(files[i].name, files[i].data)];
      uploadedFiles := uploadedFiles + [files[i].name];
    }
    assert files[..|files|] == files;
  }

  /** The route. On success the reply carries the new app, the file names and `/a/<id>`. */
  method UploadApp(store: Store, files: seq<FormFile>, appName: Option<string>, description: Option<string>,
                   timestamp: int, createdAt: int, random: string)
    returns (r: UploadReply)
    modifies store
    ensures store.starred == old(store.starred)
    ensures |files| == 0 ==>
      r == Error(400, NoFiles) && store.apps == old(store.apps) && store.disk == old(store.disk)
    ensures |files| > 0 && !Truthy(appName) ==>
      r == Error(400, NoAppName) && store.apps == old(store.apps) && store.disk == old(store.disk)
    ensures |files| > 0 && Truthy(appName) ==>
      var path := StoragePath(appName.value, timestamp);
      var saved := Saved(old(store.disk), store.uploadsDir, path, Uploads(files));
      && store.disk == saved.0
      && (!saved.1 ==> r == Error(500, SomethingWrong) && store.apps == old(store.apps))
      && (saved.1 ==>
            && r.Uploaded?
            && store.apps == old(store.apps) + [r.app]
            && r.app.id == NewId(createdAt, random)
            && r.app.name == appName.value
            && r.app.slug == Slugify(appName.value)
            && r.app.description == DescriptionOf(description)
            && r.app.storagePath == path
            && r.app.status == "draft"
            && r.files == Names(files)
            && r.url == "/a/" + r.app.id)
    ensures |files| > 0 && Truthy(appName) && (exists i :: 0 <= i < |files| && EndsWithSlash(files[i].name)) ==>
      r == Error(500, SomethingWrong) && store.apps == old(store.apps)
  {
    if |files| == 0 {
      return Error(400, NoFiles);
    }
    if !Truthy(appName) {
      return Error(400, NoAppName);
    }
    var desc := DescriptionOf(description);
    var appSlug := Slugify(appName.value);
    var storagePath := appSlug + "-" + IntToDecimal(timestamp);
    var filesToSave, uploadedFiles := CollectFiles(files);
    assert storagePath == StoragePath(appName.value, timestamp);
    ghost var d0 := store.disk;
    var saved := store.SaveUploadedFiles(storagePath, filesToSave);
    forall i | 0 <= i < |files| && EndsWithSlash(files[i].name)
      ensures !Saved(d0, store.uploadsDir, storagePath, filesToSave).1
    {
      SavedRefusesTrailingSlash(d0, store.uploadsDir, storagePath, filesToSave, i);
    }
    if saved.None? {
      return Error(500, SomethingWrong);
    }
    var app := store.CreateApp(appName.value, desc, storagePath, createdAt, random);
    r := Uploaded(app, uploadedFiles, "/a/" + app.id);
  }
}
