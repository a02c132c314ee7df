/** The web views (`myapp/views.py`) that change stored state outside the
    chat: the PDF upload, the index regeneration, and the admin panel's
    corpus upload and edit forms. */
module Views {
  import opened Wrappers
  import Strings
  import Dict
  import Json
  import Ordering
  import Passages
  import VectorDb
  import Documents
  import Conversation
  import Registry
  import FileManager

  // ---------------------------------------------------------------------
  // upload_documents
  // ---------------------------------------------------------------------

  /** An `UploadedDocument` row; `(session, filename)` is unique. */
  datatype UploadRow = UploadRow(session: string, filename: string, path: string, processed: bool)

  predicate UniqueUploads(rows: seq<UploadRow>) {
    forall i, j | 0 <= i < j < |rows| :: (rows[i].session, rows[i].filename) != (rows[j].session, rows[j].filename)
  }

  predicate Recorded(rows: seq<UploadRow>, session: string, name: string) {
    exists r | r in rows :: r.session == session && r.filename == name
  }

  /** What the upload view reads and writes: the `docs` folder, the upload
      log, the web session and the vector index. */
  datatype Site = Site(folder: Documents.Folder, uploads: seq<UploadRow>, session: Conversation.Session,
                       index: Option<Passages.Store>)

  datatype UploadOutcome =
    | InvalidForm
    | NoFiles
    | IntegrityError
    | Uploaded(report: Documents.SaveReport, regenerated: bool)

  function NewUpload(session: string, name: string): UploadRow {
    UploadRow(session, name, Strings.PathJoin(Documents.DocsDir, name), false)
  }

  /** One `UploadedDocument.objects.create` per saved name, in order; the
      first name already recorded for the session violates the unique
      constraint and stops the loop with the rows created so far kept. */
  function CreateUploads(rows: seq<UploadRow>, session: string, names: seq<string>): (r: (seq<UploadRow>, bool))
    ensures |rows| <= |r.0| && r.0[..|rows|] == rows
    ensures r.1 ==> |r.0| == |rows| + |names|
    ensures UniqueUploads(rows) ==> UniqueUploads(r.0)
    decreases |names|
  {
    if |names| == 0 then (rows, true)
    else if Recorded(rows, session, names[0]) then (rows, false)
    else
      var next := rows + [NewUpload(session, names[0])];
      AppendUnique(rows, NewUpload(session, names[0]));
      var r := CreateUploads(next, session, names[1..]);
      assert r.0[..|rows|] == next[..|rows|];
      r
  }

  lemma AppendUnique(rows: seq<UploadRow>, x: UploadRow)
    ensures !Recorded(rows, x.session, x.filename) && UniqueUploads(rows) ==> UniqueUploads(rows + [x])
  {
    if !Recorded(rows, x.session, x.filename) && UniqueUploads(rows) {
      forall i, j | 0 <= i < j < |rows + [x]|
        ensures ((rows + [x])[i].session, (rows + [x])[i].filename) != ((rows + [x])[j].session, (rows + [x])[j].filename)
      {
        if j == |rows| {
          assert (rows + [x])[i] in rows;
        }
      }
    }
  }

  /** The inserts all succeed exactly when the names are distinct and none
      is already recorded for the session. */
  lemma {:induction false} CreateUploadsSucceeds(rows: seq<UploadRow>, session: string, names: seq<string>)
    ensures CreateUploads(rows, session, names).1 <==>
      Ordering.NoDup(names) && forall n | n in names :: !Recorded(rows, session, n)
    decreases |names|
  {
    if |names| > 0 {
      var next := rows + [NewUpload(session, names[0])];
      CreateUploadsSucceeds(next, session, names[1..]);
      assert names == [names[0]] + names[1..];
      if !Recorded(rows, session, names[0]) {
        forall n | n in names[1..] ensures Recorded(next, session, n) <==> Recorded(rows, session, n) || n == names[0] {
          if n == names[0] {
            assert next[|rows|] == NewUpload(session, names[0]);
          }
          if Recorded(next, session, n) {
            var r :| r in next && r.session == session && r.filename == n;
            if r !in rows {
              assert r == next[|rows|];
            }
          }
        }
        if Ordering.NoDup(names) {
          forall n | n in names[1..] ensures n != names[0] {
            var k :| 0 <= k < |names[1..]| && names[1..][k] == n;
            assert names[k + 1] == n;
          }
        }
        if Ordering.NoDup(names[1..]) && (forall n | n in names[1..] :: n != names[0]) {
          forall i, j | 0 <= i < j < |names| ensures names[i] != names[j] {
            if i == 0 {
              assert names[j] in names[1..];
            } else {
              assert names[i] == names[1..][i - 1] && names[j] == names[1..][j - 1];
            }
          }
        }
        if Ordering.NoDup(names) {
          forall i, j | 0 <= i < j < |names[1..]| ensures names[1..][i] != names[1..][j] {
            assert names[1..][i] == names[i + 1] && names[1..][j] == names[j + 1];
          }
        }
      }
    }
  }

  /** The corrected bookkeeping, `get_or_create`: a name already recorded for
      the session is left alone. */
  function RecordUploads(rows: seq<UploadRow>, session: string, names: seq<string>): (r: seq<UploadRow>)
    ensures |rows| <= |r| && r[..|rows|] == rows
    ensures UniqueUploads(rows) ==> UniqueUploads(r)
    ensures forall n | n in names :: Recorded(r, session, n)
    decreases |names|
  {
    if |names| == 0 then rows
    else
      var next := if Recorded(rows, session, names[0]) then rows else rows + [NewUpload(session, names[0])];
      AppendUnique(rows, NewUpload(session, names[0]));
      assert Recorded(next, session, names[0]) by {
        if !Recorded(rows, session, names[0]) {
          assert next[|rows|] in next;
        }
      }
      var r := RecordUploads(next, session, names[1..]);
      assert r[..|rows|] == next[..|rows|];
      assert Recorded(r, session, names[0]) by {
        var x :| x in next && x.session == session && x.filename == names[0];
        var k :| 0 <= k < |next| && next[k] == x;
        assert r[k] == x;
      }
      assert names == [names[0]] + names[1..];
      r
  }

  /** `filter(session_key=key, filename__in=saved).update(processed=True)` */
  function MarkProcessed(rows: seq<UploadRow>, session: string, saved: seq<string>): (r: seq<UploadRow>)
    ensures |r| == |rows|
    ensures forall i | 0 <= i < |rows| ::
      r[i] == rows[i].(processed := rows[i].processed || (rows[i].session == session && rows[i].filename in saved))
  {
    seq(|rows|, i requires 0 <= i < |rows| =>
      if rows[i].session == session && rows[i].filename in saved then rows[i].(processed := true) else rows[i])
  }

  /** The rest of the view once the uploads are recorded: the index is
      rebuilt and the cached chain dropped only when something was saved.
      The model's new index is `rebuilt`; the source's forced rebuild adds
      the new chunks to the collection already stored on disk. */
  function AfterRecording(site: Site, folder: Documents.Folder, rows: seq<UploadRow>, key: string,
                          report: Documents.SaveReport, rebuilt: Option<Passages.Store>): (r: (Site, UploadOutcome))
    ensures r.1 == Uploaded(report, report.saved != [])
    ensures r.0.folder == folder
    ensures report.saved == [] ==> r.0 == site.(folder := folder, uploads := rows, session := site.session.(key := Some(key)))
    ensures report.saved != [] ==>
      r.0.uploads == MarkProcessed(rows, key, report.saved) && r.0.index == rebuilt &&
      r.0.session == Conversation.Session(Some(key), None)
  {
    var s := site.(folder := folder, uploads := rows, session := site.session.(key := Some(key)));
    if report.saved == [] then (s, Uploaded(report, false))
    else
      (s.(uploads := MarkProcessed(rows, key, report.saved), index := rebuilt,
          session := Conversation.Session(Some(key), None)), Uploaded(report, true))
  }

  /** `upload_documents` as written: the files are written first, then one
      upload row is inserted per saved name, and a duplicate `(session,
      filename)` aborts the request with the files already written and the
      index not rebuilt. `rebuilt` is what `get_vectorstore(force=True)`
      produces over the new folder. */
  function UploadDocumentsAsWritten(site: Site, formValid: bool, files: seq<Documents.Upload>, freshKey: string,
                                    rebuilt: Option<Passages.Store>): (r: (Site, UploadOutcome))
    ensures !formValid || files == [] ==> r.0 == site
    ensures !formValid ==> r.1 == InvalidForm
    ensures formValid && files == [] ==> r.1 == NoFiles
    ensures r.1.IntegrityError? ==> r.0.index == site.index && r.0.session.chain == site.session.chain
    ensures r.1.Uploaded? ==> (r.1.regenerated <==> r.1.report.saved != [])
  {
    if !formValid then (site, InvalidForm)
    else if files == [] then (site, NoFiles)
    else
      var report := Documents.Partition(Documents.GetExistingDocuments(site.folder), files);
      var folder := SavedFolder(site.folder, files);
      var key := Conversation.KeyOf(site.session, freshKey);
      var (rows, ok) := CreateUploads(site.uploads, key, report.saved);
      if !ok then
        (site.(folder := folder, uploads := rows, session := site.session.(key := Some(key))), IntegrityError)
      else AfterRecording(site, folder, rows, key, report, rebuilt)
  }

  /** The folder after `DocumentService()` and `save_uploaded_files`: the
      constructor creates a missing directory, so the folder exists
      afterwards even when no file was written. */
  function SavedFolder(f: Documents.Folder, files: seq<Documents.Upload>): (r: Documents.Folder)
    ensures r.present
    ensures r.files == Dict.PutAll(f.files, Documents.Written(Documents.GetExistingDocuments(f), files))
  {
    var made := Documents.Open(f);
    made.(files := Dict.PutAll(made.files, Documents.Written(Documents.GetExistingDocuments(f), files)))
  }

  /** Two new files with the same name in one batch: both are reported as
      saved, so the second insert hits the unique constraint and the request
      fails after the file was written, without rebuilding the index. */
  lemma SameNameBatchFails(site: Site, n: string, freshKey: string, rebuilt: Option<Passages.Store>)
    requires site.folder.files == [] && site.uploads == []
    ensures var r := UploadDocumentsAsWritten(site, true, [Documents.Upload(n, 1, None), Documents.Upload(n, 2, None)],
                                              freshKey, rebuilt);
      r.1 == IntegrityError && n in Dict.Keys(r.0.folder.files) && r.0.index == site.index
  {
    var files := [Documents.Upload(n, 1, None), Documents.Upload(n, 2, None)];
    assert Documents.GetExistingDocuments(site.folder) == [];
    Documents.SameNameBothSaved(site.folder.files, n, 1, 2);
    var key := Conversation.KeyOf(site.session, freshKey);
    CreateUploadsSucceeds([], key, [n, n]);
    assert !Ordering.NoDup([n, n]);
    Documents.WrittenNames([], files);
    Dict.PutAllGet(site.folder.files, Documents.Written([], files), n);
  }

  /** `upload_documents` with the bookkeeping corrected to skip names the
      session already recorded: the request always completes, the log stays
      unique and records every saved name, and the index is rebuilt exactly
      when something was saved. */
  function UploadDocuments(site: Site, formValid: bool, files: seq<Documents.Upload>, freshKey: string,
                           rebuilt: Option<Passages.Store>): (r: (Site, UploadOutcome))
    ensures !formValid || files == [] ==> r.0 == site
    ensures !formValid ==> r.1 == InvalidForm
    ensures formValid && files == [] ==> r.1 == NoFiles
    ensures formValid && files != [] ==>
      r.1.Uploaded? && r.1.report == Documents.Partition(Documents.GetExistingDocuments(site.folder), files)
    ensures r.1.Uploaded? ==> (r.1.regenerated <==> r.1.report.saved != [])
    ensures UniqueUploads(site.uploads) ==> UniqueUploads(r.0.uploads)
    ensures r.1.Uploaded? ==>
      var key := Conversation.KeyOf(site.session, freshKey);
      forall n | n in r.1.report.saved :: Recorded(r.0.uploads, key, n)
  {
    if !formValid then (site, InvalidForm)
    else if files == [] then (site, NoFiles)
    else
      var report := Documents.Partition(Documents.GetExistingDocuments(site.folder), files);
      var key := Conversation.KeyOf(site.session, freshKey);
      var rows := RecordUploads(site.uploads, key, report.saved);
      MarkKeepsRecorded(rows, key, report.saved);
      AfterRecording(site, SavedFolder(site.folder, files), rows, key, report, rebuilt)
  }

  /** Marking rows processed keeps the log's keys. */
  lemma MarkKeepsRecorded(rows: seq<UploadRow>, session: string, saved: seq<string>)
    ensures UniqueUploads(rows) ==> UniqueUploads(MarkProcessed(rows, session, saved))
    ensures forall n | Recorded(rows, session, n) :: Recorded(MarkProcessed(rows, session, saved), session, n)
  {
    var m := MarkProcessed(rows, session, saved);
    forall n | Recorded(rows, session, n) ensures Recorded(m, session, n) {
      var x :| x in rows && x.session == session && x.filename == n;
      var k :| 0 <= k < |rows| && rows[k] == x;
      assert m[k] in m;
    }
  }

  /** With the batch's saved names recorded, exactly those rows of the
      session are marked processed; other rows keep their flag. */
  lemma UploadMarksSaved(site: Site, files: seq<Documents.Upload>, freshKey: string,
                         rebuilt: Option<Passages.Store>, i: nat)
    requires files != []
    ensures var r := UploadDocuments(site, true, files, freshKey, rebuilt);
      var key := Conversation.KeyOf(site.session, freshKey);
      i < |r.0.uploads| && r.1.report.saved != [] ==>
        (r.0.uploads[i].processed <==>
          (i < |site.uploads| && site.uploads[i].processed) ||
          (r.0.uploads[i].session == key && r.0.uploads[i].filename in r.1.report.saved))
  {
    var report := Documents.Partition(Documents.GetExistingDocuments(site.folder), files);
    var key := Conversation.KeyOf(site.session, freshKey);
    var rows := RecordUploads(site.uploads, key, report.saved);
    if i < |rows| && report.saved != [] && i >= |site.uploads| {
      NewRowsUnprocessed(site.uploads, key, report.saved, i);
    }
  }

  /** Rows the bookkeeping adds start unprocessed. */
  lemma {:induction false} NewRowsUnprocessed(rows: seq<UploadRow>, session: string, names: seq<string>, i: nat)
    requires |rows| <= i < |RecordUploads(rows, session, names)|
    ensures !RecordUploads(rows, session, names)[i].processed
    decreases |names|
  {
    if |names| > 0 {
      var next := if Recorded(rows, session, names[0]) then rows else rows + [NewUpload(session, names[0])];
      var r := RecordUploads(next, session, names[1..]);
      assert RecordUploads(rows, session, names) == r;
      if i < |next| {
        assert r[i] == r[..|next|][i] == next[i];
        assert next[i] == NewUpload(session, names[0]);
      } else {
        NewRowsUnprocessed(next, session, names[1..], i);
      }
    }
  }

  // ---------------------------------------------------------------------
  // regenerate_vectordb
  // ---------------------------------------------------------------------

  const NothingToIndex := "No hay PDFs ni corpus JSON para procesar"
  const IndexBuildFailed := "Error al crear la base vectorial"

  datatype IndexReply = IndexReply(status: nat, error: Option<string>, pdfCount: nat, hasCorpus: bool)

  /** `regenerate_vectordb`: with neither PDFs nor the corpus file it answers
      400 before touching the index; otherwise the old index is deleted and
      a new one built from the passages given. A build that yields nothing
      answers 500 and leaves no index; a successful one drops the cached
      chain. `hasCorpus` and `jsonDocs` both come from the corpus file:
      without it there are no corpus passages (`VectorDb.ExtractJsonText`
      of a missing file). */
  function RegenerateVectordb(site: Site, hasCorpus: bool, pdfDocs: seq<Passages.Doc>, jsonDocs: seq<Passages.Doc>,
                              split: seq<Passages.Doc> -> seq<Passages.Doc>, buildOk: bool): (r: (Site, IndexReply))
    requires !hasCorpus ==> jsonDocs == []
    ensures var pdfs := Documents.GetExistingDocuments(site.folder);
      pdfs == [] && !hasCorpus ==> r == (site, IndexReply(400, Some(NothingToIndex), 0, false))
    ensures r.1.status == 200 <==>
      (Documents.GetExistingDocuments(site.folder) != [] || hasCorpus) &&
      VectorDb.CreateVectorstore(pdfDocs, jsonDocs, split, buildOk).Some?
    ensures r.1.status == 200 ==>
      r.0.index == VectorDb.CreateVectorstore(pdfDocs, jsonDocs, split, buildOk) && r.0.session.chain.None? &&
      r.1.pdfCount == |Documents.GetExistingDocuments(site.folder)| && r.1.hasCorpus == hasCorpus
    ensures r.1.status == 500 ==> r.0.index.None? && r.1.error == Some(IndexBuildFailed)
    ensures r.0.folder == site.folder && r.0.uploads == site.uploads && r.0.session.key == site.session.key
  {
    var pdfs := Documents.GetExistingDocuments(site.folder);
    if pdfs == [] && !hasCorpus then (site, IndexReply(400, Some(NothingToIndex), 0, false))
    else
      match VectorDb.CreateVectorstore(pdfDocs, jsonDocs, split, buildOk)
      case Some(store) =>
        (site.(index := Some(store), session := site.session.(chain := None)), IndexReply(200, None, |pdfs|, hasCorpus))
      case None => (site.(index := None), IndexReply(500, Some(IndexBuildFailed), 0, false))
  }

  /** The guard answers before the old index is deleted; past the guard a
      failed build has already deleted it. */
  lemma RegenerateKeepsIndexOnlyWhenGuarded(site: Site, hasCorpus: bool, pdfDocs: seq<Passages.Doc>,
                                            jsonDocs: seq<Passages.Doc>, split: seq<Passages.Doc> -> seq<Passages.Doc>,
                                            buildOk: bool)
    requires !hasCorpus ==> jsonDocs == []
    requires site.index.Some?
    ensures RegenerateVectordb(site, hasCorpus, pdfDocs, jsonDocs, split, buildOk).0.index == site.index <==>
      (Documents.GetExistingDocuments(site.folder) == [] && !hasCorpus) ||
      VectorDb.CreateVectorstore(pdfDocs, jsonDocs, split, buildOk) == site.index
  {
  }

  // ---------------------------------------------------------------------
  // admin_corpus_upload / admin_corpus_edit
  // ---------------------------------------------------------------------

  const NoFileChosen := "Debe seleccionar un archivo"
  const NotJson := "El archivo no es un JSON válido"
  const CorpusNotFound := "Corpus no encontrado"
  const AdminCreateErrorPrefix := "Error al crear corpus: "
  const AdminUpdateErrorPrefix := "Error al actualizar: "
  const AdminUser := "admin"

  datatype AdminResult = Done | Failed(message: string)

  /** `admin_corpus_upload`: a file is required and must decode; the count
      is the list length or 1; the file is stored before the insert, so a
      taken name fails with the file left behind. `version` is the posted
      value, which the view reads as "1.0" when the form omits it. */
  function AdminCorpusUpload(repo: FileManager.Repo, env: FileManager.Env, name: string, corpusType: string,
                             description: string, version: string, isActive: bool, file: Option<FileManager.NewFile>)
    : (r: (FileManager.Repo, AdminResult))
    ensures file.None? ==> r == (repo, Failed(NoFileChosen))
    ensures file.Some? && env.parse(file.value.content).Err? ==> r == (repo, Failed(NotJson))
    ensures r.1.Done? <==>
      file.Some? && env.parse(file.value.content).Ok? && !FileManager.NameTaken(repo.corpora, name)
    ensures r.1.Done? ==>
      |r.0.corpora| == |repo.corpora| + 1 && r.0.corpora[..|repo.corpora|] == repo.corpora &&
      var rec := r.0.corpora[|repo.corpora|];
      Dict.Get(rec.fields, "records_count") == Some(Json.JInt(Registry.CountRecords(env.parse(file.value.content).value))) &&
      Dict.Get(r.0.disk, rec.file) == Some(file.value.content)
  {
    match file
    case None => (repo, Failed(NoFileChosen))
    case Some(f) =>
      match env.parse(f.content)
      case Err(_) => (repo, Failed(NotJson))
      case Ok(data) =>
        var (disk, path) := FileManager.Store(repo.disk, FileManager.CorpusUploadDir, f.name, f.content);
        if FileManager.NameTaken(repo.corpora, name) then
          (repo.(disk := disk), Failed(AdminCreateErrorPrefix + env.errorText))
        else
          var rec := AdminCorpusRow(repo.nextId, name, corpusType, description, version, isActive,
                                    Registry.CountRecords(data), path, f.content);
          (repo.(corpora := repo.corpora + [rec], disk := disk, nextId := repo.nextId + 1), Done)
  }

  function AdminCorpusRow(id: nat, name: string, corpusType: string, description: string, version: string,
                          isActive: bool, count: int, path: string, content: string): (rec: Registry.Record)
    ensures Dict.Get(rec.fields, "records_count") == Some(Json.JInt(count)) && rec.file == path
  {
    var fields := Registry.CorpusFields(name, corpusType, description, version, isActive, count, AdminUser);
    Dict.GetAt(fields, 5);
    Dict.PutOther(fields, "file_size", Json.JInt(|content|), "records_count");
    FileManager.Attach(Registry.Record(id, fields, ""), path, content)
  }

  /** For an active corpus the admin form inserts the same row, and stores
      the same file, as the file manager's `create_json_corpus` with
      validation. */
  lemma AdminUploadMatchesService(repo: FileManager.Repo, env: FileManager.Env, name: string, corpusType: string,
                                  description: string, version: string, file: FileManager.NewFile)
    ensures var a := AdminCorpusUpload(repo, env, name, corpusType, description, version, true, Some(file));
      var s := FileManager.CreateJsonCorpus(repo, env, name, file, corpusType, description, version, AdminUser, true);
      a.0 == s.0 && (a.1.Done? <==> s.1.Some?)
  {
  }

  /** The edit form: posted values for the four text attributes (absent
      ones keep the stored value) and the active checkbox. */
  datatype EditForm = EditForm(name: Option<string>, corpusType: Option<string>, description: Option<string>,
                               version: Option<string>, isActive: bool)

  function Posted(key: string, v: Option<string>): seq<(string, Json.Json)> {
    if v.Some? then [(key, Json.JStr(v.value))] else []
  }

  function FormUpdates(form: EditForm): seq<(string, Json.Json)> {
    Posted("name", form.name) + Posted("corpus_type", form.corpusType) + Posted("description", form.description) +
    Posted("version", form.version) + [("is_active", Json.JBool(form.isActive))]
  }

  /** `admin_corpus_edit`: an unknown id or an undecodable new file changes
      nothing. A new file is stored under a fresh name, the old one stays in
      storage, and the count is taken from the new content; `save()` then
      syncs `file_size`, failing when the current file is missing, and the
      write fails when the edited name is another corpus's. The new file is
      stored before the write, so a failed write leaves it in storage. */
  function AdminCorpusEdit(repo: FileManager.Repo, env: FileManager.Env, id: nat, form: EditForm,
                           newFile: Option<FileManager.NewFile>): (r: (FileManager.Repo, AdminResult))
    ensures FileManager.Find(repo.corpora, id).None? ==> r == (repo, Failed(CorpusNotFound))
    ensures FileManager.Find(repo.corpora, id).Some? && newFile.Some? && env.parse(newFile.value.content).Err? ==>
      r.0 == repo && r.1 == Failed(NotJson)
    ensures r.1.Done? ==>
      var i := FileManager.Find(repo.corpora, id).value;
      |r.0.corpora| == |repo.corpora| && r.0.corpora[i].id == id &&
      (forall j | 0 <= j < |repo.corpora| && j != i :: r.0.corpora[j] == repo.corpora[j]) &&
      (newFile.Some? ==>
        Dict.Get(r.0.corpora[i].fields, "records_count") ==
          (if "records_count" in Dict.Keys(repo.corpora[i].fields)
           then Some(Json.JInt(Registry.CountRecords(env.parse(newFile.value.content).value)))
           else None) &&
        Dict.Get(r.0.disk, r.0.corpora[i].file) == Some(newFile.value.content))
    ensures forall p | p in Dict.Keys(repo.disk) :: Dict.Get(r.0.disk, p) == Dict.Get(repo.disk, p)
    ensures r.1.Failed? ==> r.0.corpora == repo.corpora && r.0 == repo.(disk := r.0.disk)
    ensures r.1.Failed? && FileManager.Find(repo.corpora, id).Some? &&
            !(newFile.Some? && env.parse(newFile.value.content).Err?) ==>
      r.1 == Failed(AdminUpdateErrorPrefix + env.errorText)
    ensures newFile.None? ==> r.0.disk == repo.disk
    ensures newFile.None? && FileManager.Find(repo.corpora, id).Some? ==>
      var i := FileManager.Find(repo.corpora, id).value;
      (r.1.Done? <==> StoredOrNone(repo.corpora[i], repo.disk) &&
                      !FileManager.RenameClashes(repo.corpora, i, FormUpdates(form)))
    ensures newFile.Some? && env.parse(newFile.value.content).Ok? && FileManager.Find(repo.corpora, id).Some? ==>
      (r.1.Done? <==> !FileManager.RenameClashes(repo.corpora, FileManager.Find(repo.corpora, id).value, FormUpdates(form))) &&
      FileManager.Holds(r.0.disk, newFile.value.content)
  {
    match FileManager.Find(repo.corpora, id)
    case None => (repo, Failed(CorpusNotFound))
    case Some(i) =>
      var rec := repo.corpora[i];
      var fields := Registry.ApplyUpdates(rec.fields, FormUpdates(form));
      match newFile
      case None => SaveEdited(repo, env, i, rec.(fields := fields), repo.disk)
      case Some(f) =>
        match env.parse(f.content)
        case Err(_) => (repo, Failed(NotJson))
        case Ok(data) =>
          Registry.ApplyUpdatesGet(rec.fields, FormUpdates(form), "");
          EditWithFile(repo, env, i, fields, f, Registry.CountRecords(data))
  }

  /** The edit with a new, well-formed corpus file: the file is stored under
      a fresh name and `records_count` set from its content. */
  function EditWithFile(repo: FileManager.Repo, env: FileManager.Env, i: nat, fields: seq<(string, Json.Json)>,
                        f: FileManager.NewFile, count: int): (r: (FileManager.Repo, AdminResult))
    requires i < |repo.corpora| && Dict.Keys(fields) == Dict.Keys(repo.corpora[i].fields)
    ensures r.1.Done? <==> !Registry.NameClash(repo.corpora, i, fields)
    ensures r.1.Failed? ==> r == (repo.(disk := r.0.disk), Failed(AdminUpdateErrorPrefix + env.errorText))
    ensures FileManager.Holds(r.0.disk, f.content)
    ensures forall p | p in Dict.Keys(repo.disk) :: Dict.Get(r.0.disk, p) == Dict.Get(repo.disk, p)
    ensures r.1.Done? ==>
      |r.0.corpora| == |repo.corpora| && r.0.corpora[i].id == repo.corpora[i].id &&
      (forall j | 0 <= j < |repo.corpora| && j != i :: r.0.corpora[j] == repo.corpora[j]) &&
      Dict.Get(r.0.corpora[i].fields, "records_count") ==
        (if "records_count" in Dict.Keys(repo.corpora[i].fields) then Some(Json.JInt(count)) else None) &&
      Dict.Get(r.0.disk, r.0.corpora[i].file) == Some(f.content)
  {
    var rec := repo.corpora[i];
    var (disk, path) := FileManager.Store(repo.disk, FileManager.CorpusUploadDir, f.name, f.content);
    FileManager.StoreKeeps(repo.disk, FileManager.CorpusUploadDir, f.name, f.content);
    var counted := CountInto(rec.fields, fields, count);
    assert Dict.Get(disk, path) == Some(f.content);
    SaveEdited(repo, env, i, Registry.Record(rec.id, counted, path), disk)
  }

  predicate StoredOrNone(rec: Registry.Record, disk: Registry.Disk) {
    rec.file == "" || rec.file in Dict.Keys(disk)
  }

  /** Setting `records_count` on the edited attributes; the name stays. */
  function CountInto(before: seq<(string, Json.Json)>, fields: seq<(string, Json.Json)>, count: int)
    : (r: seq<(string, Json.Json)>)
    requires Dict.Keys(fields) == Dict.Keys(before)
    ensures Dict.Get(r, "records_count") ==
      (if "records_count" in Dict.Keys(before) then Some(Json.JInt(count)) else None)
    ensures Dict.Get(r, "name") == Dict.Get(fields, "name")
  {
    if "records_count" in Dict.Keys(fields) then
      Dict.PutOther(fields, "records_count", Json.JInt(count), "name");
      Dict.Put(fields, "records_count", Json.JInt(count))
    else fields
  }

  /** `corpus.save()` on the edited row, writing it back at index `i`, with
      `disk` the storage once any new file is stored. The save fails when
      the current file is missing or the name belongs to another corpus, and
      then only the stored files change. */
  function SaveEdited(repo: FileManager.Repo, env: FileManager.Env, i: nat, rec: Registry.Record, disk: Registry.Disk)
    : (r: (FileManager.Repo, AdminResult))
    requires i < |repo.corpora|
    ensures r.1.Failed? <==> (rec.file != "" && rec.file !in Dict.Keys(disk)) || Registry.NameClash(repo.corpora, i, rec.fields)
    ensures r.1.Failed? ==> r == (repo.(disk := disk), Failed(AdminUpdateErrorPrefix + env.errorText))
    ensures r.1.Done? ==>
      |r.0.corpora| == |repo.corpora| && r.0 == repo.(corpora := repo.corpora[i := r.0.corpora[i]], disk := disk) &&
      r.0.corpora[i].id == rec.id && r.0.corpora[i].file == rec.file &&
      (forall k | k != "file_size" :: Dict.Get(r.0.corpora[i].fields, k) == Dict.Get(rec.fields, k))
  {
    match Registry.SyncSize(rec, disk)
    case Err(_) => (repo.(disk := disk), Failed(AdminUpdateErrorPrefix + env.errorText))
    case Ok(saved) =>
      if Registry.NameClash(repo.corpora, i, rec.fields) then
        (repo.(disk := disk), Failed(AdminUpdateErrorPrefix + env.errorText))
      else
        FileManager.SyncSizeFrameAll(rec, disk);
        (repo.(corpora := repo.corpora[i := saved], disk := disk), Done)
  }

  /** Editing a corpus keeps corpus names unique. */
  lemma AdminEditKeepsNamesUnique(repo: FileManager.Repo, env: FileManager.Env, id: nat, form: EditForm,
                                  newFile: Option<FileManager.NewFile>)
    requires Registry.UniqueNames(repo.corpora)
    ensures Registry.UniqueNames(AdminCorpusEdit(repo, env, id, form, newFile).0.corpora)
  {
    var r := AdminCorpusEdit(repo, env, id, form, newFile);
    if r.1.Done? {
      var i := FileManager.Find(repo.corpora, id).value;
      assert !FileManager.RenameClashes(repo.corpora, i, FormUpdates(form));
      var fields := Registry.ApplyUpdates(repo.corpora[i].fields, FormUpdates(form));
      assert Dict.Get(r.0.corpora[i].fields, "name") == Dict.Get(fields, "name");
      assert r.0.corpora == repo.corpora[i := r.0.corpora[i]];
      Registry.ReplaceKeepsUniqueNames(repo.corpora, i, r.0.corpora[i]);
    }
  }
}
