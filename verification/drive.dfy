/** The file logic of ap_sku_tool_web_service.py, the local service that keeps the
    databases in one Google Drive folder: picking files by name prefix and suffix, taking
    the latest by name, resolving a delete request, and uploading with update-or-create.
    The folder is a list of files in the order the Drive API lists them. */
module DriveService {
  import opened Text
  import opened Wrappers

  /** A file in the Drive folder: its id and its name. */
  datatype DriveFile = DriveFile(id: string, name: string)

  /** Python truthiness of an optional JSON string: present and non-empty. */
  predicate Truthy(field: Option<string>) {
    field.Some? && field.value != []
  }

  /** `request.json.get(key, default)`: the field when present, even when empty. */
  function GetOr(field: Option<string>, default: string): (r: string)
    ensures field.Some? ==> r == field.value
    ensures field.None? ==> r == default
  {
    match field
    case Some(v) => v
    case None => default
  }

  // ---------------------------------------------------------------------------
  // Matching and the latest file
  // ---------------------------------------------------------------------------

  /** The files whose name starts with `prefix` and ends with `suffix`, in listing order. */
  function Matching(files: seq<DriveFile>, prefix: string, suffix: string): (r: seq<DriveFile>)
    ensures |r| <= |files|
    ensures forall f :: f in r <==> f in files && StartsWith(f.name, prefix) && EndsWith(f.name, suffix)
  {
    if |files| == 0 then []
    else
      var rest := Matching(files[1..], prefix, suffix);
      assert forall f :: f in files <==> f == files[0] || f in files[1..];
      var f := files[0];
      if StartsWith(f.name, prefix) && EndsWith(f.name, suffix) then [f] + rest else rest
  }

  /** Matching distributes over concatenation: a file's place among the matches is its
      place in the listing. */
  lemma {:induction false} MatchingConcat(a: seq<DriveFile>, b: seq<DriveFile>, prefix: string, suffix: string)
    ensures Matching(a + b, prefix, suffix) == Matching(a, prefix, suffix) + Matching(b, prefix, suffix)
    decreases |a|
  {
    if |a| == 0 {
      assert a + b == b;
    } else {
      assert (a + b)[0] == a[0] && (a + b)[1..] == a[1..] + b;
      MatchingConcat(a[1..], b, prefix, suffix);
    }
  }

  /** A file listed after the others comes after their matches, and only when it matches. */
  lemma MatchingAppend(files: seq<DriveFile>, f: DriveFile, prefix: string, suffix: string)
    ensures Matching(files + [f], prefix, suffix)
         == Matching(files, prefix, suffix) + (if StartsWith(f.name, prefix) && EndsWith(f.name, suffix) then [f] else [])
  {
    MatchingConcat(files, [f], prefix, suffix);
    assert [f][1..] == [];
  }

  /** With an empty prefix and suffix every file matches, in order. */
  lemma {:induction false} MatchingEverything(files: seq<DriveFile>)
    ensures Matching(files, "", "") == files
    decreases |files|
  {
    if |files| > 0 {
      var f, rest := files[0], files[1..];
      assert Matching(files, "", "") == [f] + rest by {
        assert StartsWith(f.name, "") && EndsWith(f.name, "") by {
          assert f.name[..0] == "";
          assert f.name[|f.name|..] == "";
        }
        MatchingEverything(rest);
      }
      assert files == [f] + rest;
    }
  }

  /** The first element of `sort(key=name, reverse=True)`: the greatest name, and among
      files sharing it the first listed, since the sort is stable. */
  function LatestByName(files: seq<DriveFile>): (r: DriveFile)
    requires |files| > 0
    ensures exists i :: IsLatestAt(files, i) && files[i] == r
    decreases |files|
  {
    if |files| == 1 then
      assert IsLatestAt(files, 0);
      files[0]
    else
      var best := LatestByName(files[1..]);
      LatestStep(files, best);
      if LexLess(files[0].name, best.name) then best else files[0]
  }

  /** The latest of the tail stays latest unless the head's name is at least as great. */
  lemma LatestStep(files: seq<DriveFile>, best: DriveFile)
    requires |files| > 1 && exists i :: IsLatestAt(files[1..], i) && files[1..][i] == best
    ensures LexLess(files[0].name, best.name) ==> exists i :: IsLatestAt(files, i) && files[i] == best
    ensures !LexLess(files[0].name, best.name) ==> IsLatestAt(files, 0)
  {
    var i :| IsLatestAt(files[1..], i) && files[1..][i] == best;
    if LexLess(files[0].name, best.name) {
      LatestStaysLatest(files, i);
    } else {
      LatestFirst(files, i);
    }
  }

  /** Position `i` holds a greatest name, and every file before it has a smaller name. */
  ghost predicate IsLatestAt(files: seq<DriveFile>, i: int) {
    && 0 <= i < |files|
    && (forall j :: 0 <= j < i ==> LexLess(files[j].name, files[i].name))
    && (forall j :: i < j < |files| ==> !LexLess(files[i].name, files[j].name))
  }

  lemma LatestStaysLatest(files: seq<DriveFile>, i: nat)
    requires |files| > 1 && IsLatestAt(files[1..], i)
    requires LexLess(files[0].name, files[1..][i].name)
    ensures IsLatestAt(files, i + 1)
  {
    forall j | 1 <= j < i + 1
      ensures LexLess(files[j].name, files[i + 1].name)
    {
      assert files[j] == files[1..][j - 1];
    }
    forall j | i + 1 < j < |files|
      ensures !LexLess(files[i + 1].name, files[j].name)
    {
      assert files[j] == files[1..][j - 1];
    }
  }

  lemma LatestFirst(files: seq<DriveFile>, i: nat)
    requires |files| > 1 && IsLatestAt(files[1..], i)
    requires !LexLess(files[0].name, files[1..][i].name)
    ensures IsLatestAt(files, 0)
  {
    forall j | 0 < j < |files|
      ensures !LexLess(files[0].name, files[j].name)
    {
      assert files[j] == files[1..][j - 1];
      if j - 1 < i {
        LexLessAsymmetric(files[1..][j - 1].name, files[1..][i].name);
      }
      if j - 1 != i {
        NotLessTransitive(files[0].name, files[1..][i].name, files[j].name);
      }
    }
  }

  /** No file has a greater name than the latest one. */
  lemma LatestIsGreatest(files: seq<DriveFile>, f: DriveFile)
    requires |files| > 0 && f in files
    ensures !LexLess(LatestByName(files).name, f.name)
  {
    var latest := LatestByName(files);
    var i :| IsLatestAt(files, i) && files[i] == latest;
    var j :| 0 <= j < |files| && files[j] == f;
    if j < i {
      LexLessAsymmetric(files[j].name, files[i].name);
    } else if j == i {
      LexLessIrreflexive(f.name);
    }
  }

  /** A request body with optional `prefix` and `suffix` fields. */
  datatype PatternRequest = PatternRequest(prefix: Option<string>, suffix: Option<string>)

  /** The replies of the latest-file endpoints. */
  datatype LatestReply = LatestFound(fileId: string, name: string) | NoMatchingFiles

  /** `/latest_db_file_id`: the defaults are `sku_database_` and `.json`; the reply names
      the matching file with the greatest name, or is the 404 reply when nothing matches. */
  function ApiLatestDbFileId(request: PatternRequest, files: seq<DriveFile>): (r: LatestReply)
    ensures var m := Matching(files, GetOr(request.prefix, "sku_database_"), GetOr(request.suffix, ".json"));
            && (r == NoMatchingFiles <==> m == [])
            && (r.LatestFound? ==> DriveFile(r.fileId, r.name) in m)
            && (r.LatestFound? ==> exists i :: IsLatestAt(m, i) && m[i] == DriveFile(r.fileId, r.name))
  {
    var m := Matching(files, GetOr(request.prefix, "sku_database_"), GetOr(request.suffix, ".json"));
    if m == [] then NoMatchingFiles
    else
      var latest := LatestByName(m);
      LatestFound(latest.id, latest.name)
  }

  /** What `/pull_latest_db` reports, given whether the download succeeded. */
  datatype PullReply = Pulled(fileId: string, name: string) | NoDatabaseFound | DownloadFailed

  /** `/pull_latest_db`: the same choice as `/latest_db_file_id`, followed by a download of
      the chosen file into the data directory under its own name. */
  function ApiPullLatestDb(request: PatternRequest, files: seq<DriveFile>, downloadSucceeds: bool): (r: PullReply)
    ensures r == NoDatabaseFound <==> ApiLatestDbFileId(request, files) == NoMatchingFiles
    ensures r.Pulled? ==> ApiLatestDbFileId(request, files) == LatestFound(r.fileId, r.name)
    ensures r == DownloadFailed <==> ApiLatestDbFileId(request, files).LatestFound? && !downloadSucceeds
  {
    match ApiLatestDbFileId(request, files)
    case NoMatchingFiles => NoDatabaseFound
    case LatestFound(id, name) => if downloadSucceeds then Pulled(id, name) else DownloadFailed
  }

  /** `/list`: the matching files, with an empty prefix and suffix by default. */
  function ApiList(request: PatternRequest, files: seq<DriveFile>): (r: seq<DriveFile>)
    ensures forall f :: f in r <==> f in files && StartsWith(f.name, GetOr(request.prefix, "")) && EndsWith(f.name, GetOr(request.suffix, ""))
  {
    Matching(files, GetOr(request.prefix, ""), GetOr(request.suffix, ""))
  }

  /** The `/list` reply for a folder listed in two parts is the reply for the first part
      followed by the reply for the second: the listing order is kept. */
  lemma ApiListConcat(request: PatternRequest, a: seq<DriveFile>, b: seq<DriveFile>)
    ensures ApiList(request, a + b) == ApiList(request, a) + ApiList(request, b)
  {
    MatchingConcat(a, b, GetOr(request.prefix, ""), GetOr(request.suffix, ""));
  }

  /** Without a prefix or suffix, `/list` returns the whole folder in order. */
  lemma ApiListDefaults(files: seq<DriveFile>)
    ensures ApiList(PatternRequest(None, None), files) == files
  {
    MatchingEverything(files);
  }

  // ---------------------------------------------------------------------------
  // Delete and upload
  // ---------------------------------------------------------------------------

  /** The files with exactly this name, in listing order (the `name='...'` query). */
  function Named(files: seq<DriveFile>, name: string): (r: seq<DriveFile>)
    ensures forall f :: f in r <==> f in files && f.name == name
    ensures forall k :: 0 <= k < |r| ==> r[k].name == name
  {
    if |files| == 0 then []
    else
      var rest := Named(files[1..], name);
      assert forall f :: f in files <==> f == files[0] || f in files[1..];
      if files[0].name == name then [files[0]] + rest else rest
  }

  /** The first file of a name is the first one the listing gives with that name. */
  lemma {:induction false} NamedFirst(files: seq<DriveFile>, name: string)
    requires Named(files, name) != []
    ensures exists i :: 0 <= i < |files| && files[i] == Named(files, name)[0]
                        && forall j :: 0 <= j < i ==> files[j].name != name
    decreases |files|
  {
    if files[0].name == name {
      assert files[0] == Named(files, name)[0];
    } else {
      assert Named(files, name) == Named(files[1..], name);
      NamedFirst(files[1..], name);
      var i :| 0 <= i < |files[1..]| && files[1..][i] == Named(files[1..], name)[0]
               && forall j :: 0 <= j < i ==> files[1..][j].name != name;
      forall j | 0 <= j < i + 1
        ensures files[j].name != name
      {
        if j > 0 {
          assert files[j] == files[1..][j - 1];
        }
      }
      assert files[i + 1] == files[1..][i];
    }
  }

  /** The folder without the files carrying this id. */
  function WithoutId(files: seq<DriveFile>, id: string): (r: seq<DriveFile>)
    ensures forall f :: f in r <==> f in files && f.id != id
  {
    if |files| == 0 then []
    else
      var rest := WithoutId(files[1..], id);
      assert forall f :: f in files <==> f == files[0] || f in files[1..];
      if files[0].id == id then rest else [files[0]] + rest
  }

  predicate HasId(files: seq<DriveFile>, id: string) {
    exists f :: f in files && f.id == id
  }

  /** The replies of `/delete`, with the folder after a successful delete. */
  datatype DeleteReply =
    | Deleted(fileId: string, folder: seq<DriveFile>)
    | NoFileNamed      // 404: a name was given and no file has it
    | NothingToDelete  // 400: neither a file id nor a name
    | DriveError       // 500: the id is not a file of the folder, the only refusal modelled

  /** `/delete`: a non-empty `file_id` wins; otherwise a non-empty `filename` is resolved to
      the first file of that name. The file is then removed from the folder. Only ids of
      files in the folder are modelled; any other id is answered as a Drive failure. */
  function ApiDelete(fileId: Option<string>, filename: Option<string>, folder: seq<DriveFile>): (r: DeleteReply)
    ensures r == NothingToDelete <==>
              !Truthy(fileId) && (!Truthy(filename) || (Named(folder, filename.value) != [] && Named(folder, filename.value)[0].id == []))
    ensures r == NoFileNamed <==> !Truthy(fileId) && Truthy(filename) && Named(folder, filename.value) == []
    ensures Truthy(fileId) && HasId(folder, fileId.value) ==> r == Deleted(fileId.value, WithoutId(folder, fileId.value))
    ensures r.Deleted? ==> HasId(folder, r.fileId) && !HasId(r.folder, r.fileId)
    ensures r.Deleted? ==> forall f :: f in folder && f.id != r.fileId ==> f in r.folder
  {
    var resolved :=
      if !Truthy(fileId) && Truthy(filename) then
        var files := Named(folder, filename.value);
        if files == [] then None else Some(Some(files[0].id))
      else Some(fileId);
    match resolved
    case None => NoFileNamed
    case Some(id) =>
      if !Truthy(id) then NothingToDelete
      else if !HasId(folder, id.value) then DriveError
      else Deleted(id.value, WithoutId(folder, id.value))
  }

  /** Deleting by name is deleting by the id of the first file with that name. */
  lemma DeleteByNameIsDeleteById(filename: string, folder: seq<DriveFile>)
    requires filename != [] && Named(folder, filename) != [] && Named(folder, filename)[0].id != []
    ensures var first := Named(folder, filename)[0];
            ApiDelete(None, Some(filename), folder) == ApiDelete(Some(first.id), None, folder)
  {
    var first := Named(folder, filename)[0];
    assert first in Named(folder, filename);
  }

  /** `os.path.basename` with `/` as the separator: the text after the last `/`. */
  function Basename(path: string): (r: string)
    ensures '/' !in r
    ensures '/' !in path ==> r == path
    decreases |path|
  {
    if |path| == 0 then []
    else if path[|path| - 1] == '/' then []
    else Basename(path[..|path| - 1]) + [path[|path| - 1]]
  }

  /** `/upload`: the Drive name is the `drive_filename` field when non-empty, otherwise the
      base name of the local path. */
  function UploadName(driveFilename: Option<string>, filePath: string): (r: string)
    ensures Truthy(driveFilename) ==> r == driveFilename.value
    ensures !Truthy(driveFilename) ==> r == Basename(filePath)
  {
    if Truthy(driveFilename) then driveFilename.value else Basename(filePath)
  }

  /** The id `upload_file` returns and the folder afterwards. */
  datatype UploadReply = UploadReply(fileId: string, folder: seq<DriveFile>)

  /** `upload_file`: when a file of that name exists, the first one is updated in place
      (its content is not modelled) and its id returned; otherwise a file is created under
      the id Drive assigns, `newId`. */
  function UploadFile(folder: seq<DriveFile>, name: string, newId: string): (r: UploadReply)
    ensures Named(folder, name) != [] ==> r == UploadReply(Named(folder, name)[0].id, folder)
    ensures Named(folder, name) == [] ==> r == UploadReply(newId, folder + [DriveFile(newId, name)])
    ensures DriveFile(r.fileId, name) in r.folder
    ensures forall f :: f in folder ==> f in r.folder
  {
    var existing := Named(folder, name);
    if existing != [] then
      assert existing[0] in existing;
      UploadReply(existing[0].id, folder)
    else UploadReply(newId, folder + [DriveFile(newId, name)])
  }

  /** Uploading the same name twice updates the file the first upload created or found:
      the second upload returns the same id and adds nothing. */
  lemma UploadTwice(folder: seq<DriveFile>, name: string, id1: string, id2: string)
    ensures var first := UploadFile(folder, name, id1);
            UploadFile(first.folder, name, id2) == first
  {
    var first := UploadFile(folder, name, id1);
    if Named(folder, name) == [] {
      NamedAppend(folder, DriveFile(id1, name), name);
    }
  }

  /** Appending a file adds it last to the files of its name and leaves the files of any
      other name as they were. */
  lemma {:induction false} NamedAppend(files: seq<DriveFile>, f: DriveFile, name: string)
    ensures Named(files + [f], name) == Named(files, name) + (if f.name == name then [f] else [])
    decreases |files|
  {
    if |files| == 0 {
      assert files + [f] == [f] && [f][1..] == [];
    } else {
      assert (files + [f])[0] == files[0] && (files + [f])[1..] == files[1..] + [f];
      NamedAppend(files[1..], f, name);
    }
  }
}
