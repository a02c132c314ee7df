/** The corpus and PDF registry service (`myapp/services/file_manager_service.py`):
    creating corpora, replacing a record's file with a backup version first,
    restoring a version and listing the versions of a record. The database
    tables and the file storage are one immutable `Repo` value. */
module FileManager {
  import opened Wrappers
  import Strings
  import Dict
  import Json
  import Ordering
  import Registry

  const CorpusUploadDir := "corpus_json"
  const PdfUploadDir := "documents_pdf"
  const VersionUploadDir := "versions"

  const BackupBeforeUpdate := "Versión anterior antes de actualización"
  const BackupBeforeRestore := "Backup automático antes de restaurar versión"
  const VersionNotFound := "Versión u objeto no encontrado"
  const InvalidJsonPrefix := "Archivo JSON inválido: "
  const InvalidNewJsonPrefix := "Nuevo archivo JSON inválido: "
  const CreateErrorPrefix := "Error al crear corpus: "
  const RestoreErrorPrefix := "Error al restaurar versión: "

  /** A `FileVersion` row: which record it belongs to, its label, the
      storage path of the backup copy and when it was made. */
  datatype Version = Version(
    id: nat, contentType: string, objectId: nat, number: string,
    backup: string, description: string, createdAt: int)

  /** The `JSONCorpus`, `PDFDocument` and `FileVersion` tables, the file
      storage, and the next free primary key. */
  datatype Repo = Repo(
    corpora: seq<Registry.Record>, pdfs: seq<Registry.Record>,
    versions: seq<Version>, disk: Registry.Disk, nextId: nat)

  /** Every row's id was handed out before `nextId`. */
  predicate Valid(repo: Repo) {
    (forall r | r in repo.corpora :: r.id < repo.nextId) &&
    (forall r | r in repo.pdfs :: r.id < repo.nextId) &&
    (forall v | v in repo.versions :: v.id < repo.nextId)
  }

  /** An uploaded file. */
  datatype NewFile = NewFile(name: string, content: string)

  /** What the service cannot compute itself: the clock, the JSON parser
      (with the decode error text), the PDF page counter (`None` when the
      reader fails) and the text of any other exception raised. */
  datatype Env = Env(
    now: int,
    parse: string -> Result<Json.Json, string>,
    pages: string -> Option<nat>,
    errorText: string)

  datatype Table = Corpora | Pdfs

  function Rows(repo: Repo, t: Table): seq<Registry.Record> {
    match t
    case Corpora => repo.corpora
    case Pdfs => repo.pdfs
  }

  function WithRows(repo: Repo, t: Table, rows: seq<Registry.Record>): (r: Repo)
    ensures Rows(r, t) == rows
  {
    match t
    case Corpora => repo.(corpora := rows)
    case Pdfs => repo.(pdfs := rows)
  }

  function UploadDir(t: Table): string {
    match t
    case Corpora => CorpusUploadDir
    case Pdfs => PdfUploadDir
  }

  function ContentTypeOf(t: Table): string {
    match t
    case Corpora => Registry.JsonCorpusType
    case Pdfs => Registry.PdfDocumentType
  }

  function NotFoundMessage(t: Table, id: nat): string {
    match t
    case Corpora => "Corpus con ID " + Strings.NatToString(id) + " no encontrado"
    case Pdfs => "Documento con ID " + Strings.NatToString(id) + " no encontrado"
  }

  function UpdateErrorPrefix(t: Table): string {
    match t
    case Corpora => "Error al actualizar corpus: "
    case Pdfs => "Error al actualizar documento: "
  }

  // ---------------------------------------------------------------------
  // Storage
  // ---------------------------------------------------------------------

  function Underscores(n: nat): (r: string)
    ensures |r| == n
  {
    if n == 0 then "" else Underscores(n - 1) + "_"
  }

  function MaxLen(ks: seq<string>): (m: nat)
    ensures forall i | 0 <= i < |ks| :: |ks[i]| <= m
  {
    if |ks| == 0 then 0
    else
      var m := MaxLen(ks[1..]);
      assert forall i | 1 <= i < |ks| :: ks[i] == ks[1..][i - 1];
      if |ks[0]| > m then |ks[0]| else m
  }

  /** The name storage gives a new file: the requested path when it is free,
      otherwise that path made unique with a suffix. */
  function FreshName(disk: Registry.Disk, p: string): (r: string)
    ensures r !in Dict.Keys(disk)
    ensures p !in Dict.Keys(disk) ==> r == p
    ensures Strings.StartsWith(r, p)
  {
    if p !in Dict.Keys(disk) then p
    else
      var r := p + Underscores(MaxLen(Dict.Keys(disk)) + 1 - |p|);
      assert r[..|p|] == p;
      r
  }

  /** Saves `content` under `dir/name` (or a fresh variant) and returns the
      storage path used. */
  function Store(disk: Registry.Disk, dir: string, name: string, content: string): (r: (Registry.Disk, string))
    ensures r.1 !in Dict.Keys(disk)
    ensures Dict.Get(r.0, r.1) == Some(content)
    ensures Dict.Keys(r.0) == Dict.Keys(disk) + [r.1]
    ensures Strings.StartsWith(r.1, dir + "/" + name)
  {
    var path := FreshName(disk, dir + "/" + name);
    Dict.PutKeys(disk, path, content);
    (Dict.Put(disk, path, content), path)
  }

  /** Storing a file changes no other path. */
  lemma StoreOther(disk: Registry.Disk, dir: string, name: string, content: string, p: string)
    requires p in Dict.Keys(disk)
    ensures Dict.Get(Store(disk, dir, name, content).0, p) == Dict.Get(disk, p)
  {
    Dict.PutOther(disk, FreshName(disk, dir + "/" + name), content, p);
  }

  lemma StoreKeeps(disk: Registry.Disk, dir: string, name: string, content: string)
    ensures forall p | p in Dict.Keys(disk) :: Dict.Get(Store(disk, dir, name, content).0, p) == Dict.Get(disk, p)
  {
    forall p | p in Dict.Keys(disk)
      ensures Dict.Get(Store(disk, dir, name, content).0, p) == Dict.Get(disk, p)
    {
      StoreOther(disk, dir, name, content, p);
    }
  }

  /** The first position whose key is `id`: `objects.get(id=...)` on a
      table whose rows are keyed by `key`. */
  function FindBy<T>(rows: seq<T>, key: T -> nat, id: nat): (r: Option<nat>)
    ensures r.Some? ==> r.value < |rows| && key(rows[r.value]) == id
    ensures r.None? ==> forall x | x in rows :: key(x) != id
  {
    if |rows| == 0 then None
    else if key(rows[0]) == id then Some(0)
    else
      match FindBy(rows[1..], key, id)
      case None => assert rows == [rows[0]] + rows[1..]; None
      case Some(i) => Some(i + 1)
  }

  function RecordId(x: Registry.Record): nat { x.id }

  function VersionId(v: Version): nat { v.id }

  /** The record with primary key `id`. */
  function Find(rows: seq<Registry.Record>, id: nat): (r: Option<nat>)
    ensures r.Some? ==> r.value < |rows| && rows[r.value].id == id
    ensures r.None? ==> forall x | x in rows :: x.id != id
  {
    FindBy(rows, RecordId, id)
  }

  /** The version with primary key `id`. */
  function FindVersion(vs: seq<Version>, id: nat): (r: Option<nat>)
    ensures r.Some? ==> r.value < |vs| && vs[r.value].id == id
    ensures r.None? ==> forall x | x in vs :: x.id != id
  {
    FindBy(vs, VersionId, id)
  }

  /** A row appended after rows whose ids are all smaller is found by its id. */
  lemma {:induction false} FindVersionLast(vs: seq<Version>, v: Version)
    requires forall x | x in vs :: x.id < v.id
    ensures FindVersion(vs + [v], v.id) == Some(|vs|)
  {
    if |vs| > 0 {
      assert (vs + [v])[1..] == vs[1..] + [v];
      FindVersionLast(vs[1..], v);
    }
  }

  /** `file.save(...)` followed by `save()`: the record points at the stored
      copy and `file_size` is its length. */
  function Attach(rec: Registry.Record, path: string, content: string): (r: Registry.Record)
    ensures r.id == rec.id && r.file == path
    ensures Dict.Get(r.fields, "file_size") == Some(Json.JInt(|content|))
  {
    Registry.Record(rec.id, Dict.Put(rec.fields, "file_size", Json.JInt(|content|)), path)
  }

  /** Attaching a file changes no attribute but `file_size`. */
  lemma AttachFrame(rec: Registry.Record, path: string, content: string)
    ensures forall k | k != "file_size" :: Dict.Get(Attach(rec, path, content).fields, k) == Dict.Get(rec.fields, k)
  {
    forall k | k != "file_size"
      ensures Dict.Get(Attach(rec, path, content).fields, k) == Dict.Get(rec.fields, k)
    {
      Dict.PutOther(rec.fields, "file_size", Json.JInt(|content|), k);
    }
  }

  lemma SyncSizeFrameAll(rec: Registry.Record, disk: Registry.Disk)
    requires Registry.SyncSize(rec, disk).Ok?
    ensures forall k | k != "file_size" :: Dict.Get(Registry.SyncSize(rec, disk).value.fields, k) == Dict.Get(rec.fields, k)
  {
    forall k | k != "file_size"
      ensures Dict.Get(Registry.SyncSize(rec, disk).value.fields, k) == Dict.Get(rec.fields, k)
    {
      Registry.SyncSizeFrame(rec, disk, k);
    }
  }

  // ---------------------------------------------------------------------
  // create_json_corpus
  // ---------------------------------------------------------------------

  predicate NameTaken(corpora: seq<Registry.Record>, name: string) {
    exists r | r in corpora :: Dict.Get(r.fields, "name") == Some(Json.JStr(name))
  }

  /** `records_count` of a new corpus: validated content is counted, an
      unvalidated one counts 0; `Err` carries the decode error. */
  function InitialCount(env: Env, content: string, validate: bool): (r: Result<int, string>)
    ensures !validate ==> r == Ok(0)
    ensures validate && env.parse(content).Err? ==> r == Err(env.parse(content).error)
    ensures validate && env.parse(content).Ok? ==> r == Ok(Registry.CountRecords(env.parse(content).value))
  {
    if !validate then Ok(0)
    else
      match env.parse(content)
      case Err(e) => Err(e)
      case Ok(j) => Ok(Registry.CountRecords(j))
  }

  /** The row `objects.create` inserts for a new corpus. */
  function NewCorpusRow(id: nat, name: string, corpusType: string, description: string, version: string,
                        count: int, createdBy: string, path: string, content: string): (rec: Registry.Record)
    ensures rec.id == id && rec.file == path
    ensures Dict.Get(rec.fields, "name") == Some(Json.JStr(name))
    ensures Dict.Get(rec.fields, "records_count") == Some(Json.JInt(count))
    ensures Dict.Get(rec.fields, "file_size") == Some(Json.JInt(|content|))
  {
    var fields := Registry.CorpusFields(name, corpusType, description, version, true, count, createdBy);
    Dict.GetAt(fields, 0);
    Dict.GetAt(fields, 5);
    Dict.PutOther(fields, "file_size", Json.JInt(|content|), "name");
    Dict.PutOther(fields, "file_size", Json.JInt(|content|), "records_count");
    Attach(Registry.Record(id, fields, ""), path, content)
  }

  /** `create_json_corpus`. Invalid JSON is rejected before anything is
      stored. The file is stored before the row is inserted, so a name that
      is already taken fails the insert and leaves the stored file behind. */
  function CreateJsonCorpus(repo: Repo, env: Env, name: string, file: NewFile, corpusType: string,
                            description: string, version: string, createdBy: string, validate: bool)
    : (r: (Repo, Option<Registry.Record>, Option<string>))
    ensures r.1.Some? <==> InitialCount(env, file.content, validate).Ok? && !NameTaken(repo.corpora, name)
    ensures r.1.None? <==> r.2.Some?
    ensures InitialCount(env, file.content, validate).Err? ==>
      r.0 == repo && r.2 == Some(InvalidJsonPrefix + InitialCount(env, file.content, validate).error)
    ensures InitialCount(env, file.content, validate).Ok? && NameTaken(repo.corpora, name) ==>
      r.0.corpora == repo.corpora && r.2 == Some(CreateErrorPrefix + env.errorText) &&
      |Dict.Keys(r.0.disk)| == |Dict.Keys(repo.disk)| + 1
    ensures r.1.Some? ==>
      r.0.corpora == repo.corpora + [r.1.value] && r.0.pdfs == repo.pdfs && r.0.versions == repo.versions &&
      r.1.value == NewCorpusRow(repo.nextId, name, corpusType, description, version,
                                InitialCount(env, file.content, validate).value, createdBy, r.1.value.file, file.content) &&
      r.0.nextId == repo.nextId + 1 &&
      Dict.Get(r.0.disk, r.1.value.file) == Some(file.content)
  {
    match InitialCount(env, file.content, validate)
    case Err(e) => (repo, None, Some(InvalidJsonPrefix + e))
    case Ok(count) =>
      var (disk', path) := Store(repo.disk, CorpusUploadDir, file.name, file.content);
      if NameTaken(repo.corpora, name) then
        (repo.(disk := disk'), None, Some(CreateErrorPrefix + env.errorText))
      else
        var rec := NewCorpusRow(repo.nextId, name, corpusType, description, version, count, createdBy, path, file.content);
        (repo.(corpora := repo.corpora + [rec], disk := disk', nextId := repo.nextId + 1), Some(rec), None)
  }

  /** Creating corpora keeps corpus names unique. */
  lemma CreateKeepsNamesUnique(repo: Repo, env: Env, name: string, file: NewFile, corpusType: string,
                               description: string, version: string, createdBy: string, validate: bool)
    requires Registry.UniqueNames(repo.corpora)
    ensures Registry.UniqueNames(CreateJsonCorpus(repo, env, name, file, corpusType, description, version, createdBy, validate).0.corpora)
  {
    var r := CreateJsonCorpus(repo, env, name, file, corpusType, description, version, createdBy, validate);
    if r.1.Some? {
      var rows := r.0.corpora;
      forall i, j | 0 <= i < j < |rows|
        ensures Dict.Get(rows[i].fields, "name") != Dict.Get(rows[j].fields, "name")
      {
        if j == |repo.corpora| {
          assert rows[i] in repo.corpora;
        }
      }
    }
  }

  // ---------------------------------------------------------------------
  // _create_version_backup
  // ---------------------------------------------------------------------

  /** `_create_version_backup`: copies the record's current file into a new
      version row. An empty file field or a file missing from storage makes
      the read fail, and then nothing is created. */
  function CreateVersionBackup(repo: Repo, env: Env, contentType: string, objectId: nat,
                               file: string, number: string, description: string): (r: (Repo, Option<Version>))
    ensures r.1.None? <==> file == "" || file !in Dict.Keys(repo.disk)
    ensures r.1.None? ==> r.0 == repo
    ensures r.1.Some? ==>
      var v := r.1.value;
      r.0 == repo.(versions := repo.versions + [v], disk := r.0.disk, nextId := repo.nextId + 1) &&
      v == Version(repo.nextId, contentType, objectId, number, v.backup, description, env.now) &&
      v.backup !in Dict.Keys(repo.disk) &&
      Dict.Keys(r.0.disk) == Dict.Keys(repo.disk) + [v.backup] &&
      Dict.Get(r.0.disk, v.backup) == Dict.Get(repo.disk, file)
  {
    if file == "" then (repo, None)
    else
      match Dict.Get(repo.disk, file)
      case None => (repo, None)
      case Some(content) =>
        var (disk', path) := Store(repo.disk, VersionUploadDir, Strings.Basename(file), content);
        var v := Version(repo.nextId, contentType, objectId, number, path, description, env.now);
        (repo.(versions := repo.versions + [v], disk := disk', nextId := repo.nextId + 1), Some(v))
  }

  /** A backup leaves every stored file as it was. */
  lemma BackupKeepsFiles(repo: Repo, env: Env, contentType: string, objectId: nat,
                         file: string, number: string, description: string, p: string)
    requires p in Dict.Keys(repo.disk)
    ensures Dict.Get(CreateVersionBackup(repo, env, contentType, objectId, file, number, description).0.disk, p)
         == Dict.Get(repo.disk, p)
  {
    if file != "" && file in Dict.Keys(repo.disk) {
      var content := Dict.Get(repo.disk, file).value;
      StoreOther(repo.disk, VersionUploadDir, Strings.Basename(file), content, p);
    }
  }

  // ---------------------------------------------------------------------
  // update_json_corpus / update_pdf_document
  // ---------------------------------------------------------------------

  /** The backup step: only when a new file is given and a backup is asked
      for, labelled with the record's version or "1.0". */
  function MaybeBackup(repo: Repo, env: Env, t: Table, rec: Registry.Record,
                       newFile: Option<NewFile>, createBackup: bool): (r: Repo)
    ensures !(newFile.Some? && createBackup) ==> r == repo
    ensures r.corpora == repo.corpora && r.pdfs == repo.pdfs
  {
    if newFile.Some? && createBackup then
      CreateVersionBackup(repo, env, ContentTypeOf(t), rec.id, rec.file,
                          Registry.VersionLabel(rec, "1.0"), BackupBeforeUpdate).0
    else repo
  }

  /** Removing the old file when a new one replaces it. */
  function DropOld(disk: Registry.Disk, rec: Registry.Record, newFile: Option<NewFile>): (r: Registry.Disk)
    ensures newFile.Some? && rec.file != "" ==> Dict.Get(r, rec.file).None?
  {
    if newFile.Some? && rec.file != "" then
      Dict.RemoveGet(disk, rec.file, rec.file);
      Dict.Remove(disk, rec.file)
    else disk
  }

  /** Whether `save()` on row `i` of table `t` with attributes `fields`
      violates the unique corpus name (document titles are not unique). */
  predicate Clashes(repo: Repo, t: Table, i: nat, fields: seq<(string, Json.Json)>) {
    t == Corpora && Registry.NameClash(repo.corpora, i, fields)
  }

  /** Applies the attribute updates and saves. A new file is stored under the
      table's upload directory before the row is written, so it stays in
      storage when the write fails; without one, `save()` re-reads the size
      of the current file, which fails when that file is gone. The write
      fails when the row would take a corpus name another row has. */
  function Finish(repo: Repo, env: Env, t: Table, i: nat, rec: Registry.Record, fields: seq<(string, Json.Json)>,
                  newFile: Option<NewFile>, updates: seq<(string, Json.Json)>): (r: (Repo, Option<Registry.Record>, Option<string>))
    requires i < |Rows(repo, t)|
    ensures r.1.None? <==> r.2.Some?
    ensures r.1.Some? <==>
      !Clashes(repo, t, i, Registry.ApplyUpdates(fields, updates)) &&
      (newFile.Some? || rec.file == "" || rec.file in Dict.Keys(repo.disk))
    ensures r.1.None? ==> r.0 == repo.(disk := r.0.disk) && r.2 == Some(UpdateErrorPrefix(t) + env.errorText)
    ensures r.1.Some? ==> r.0 == WithRows(repo, t, Rows(repo, t)[i := r.1.value]).(disk := r.0.disk)
    ensures r.1.Some? ==> r.1.value.id == rec.id
    ensures newFile.Some? ==> r.0.disk == Store(repo.disk, UploadDir(t), newFile.value.name, newFile.value.content).0
    ensures r.1.Some? && newFile.Some? ==>
      r.1.value.file !in Dict.Keys(repo.disk) &&
      Dict.Get(r.0.disk, r.1.value.file) == Some(newFile.value.content)
    ensures newFile.None? ==> r.0.disk == repo.disk
    ensures r.0.versions == repo.versions
    ensures r.1.Some? ==> forall k | k != "file_size" ::
      Dict.Get(r.1.value.fields, k) == Dict.Get(Registry.ApplyUpdates(fields, updates), k)
    ensures forall p | p in Dict.Keys(repo.disk) :: Dict.Get(r.0.disk, p) == Dict.Get(repo.disk, p)
  {
    var fields' := Registry.ApplyUpdates(fields, updates);

    match newFile
    case Some(f) =>
      StoreKeeps(repo.disk, UploadDir(t), f.name, f.content);
      var (disk', path) := Store(repo.disk, UploadDir(t), f.name, f.content);
      if Clashes(repo, t, i, fields') then
        (repo.(disk := disk'), None, Some(UpdateErrorPrefix(t) + env.errorText))
      else
        var rec' := Attach(Registry.Record(rec.id, fields', ""), path, f.content);
        AttachFrame(Registry.Record(rec.id, fields', ""), path, f.content);
        (WithRows(repo, t, Rows(repo, t)[i := rec']).(disk := disk'), Some(rec'), None)
    case None =>
      match Registry.SyncSize(Registry.Record(rec.id, fields', rec.file), repo.disk)
      case Err(_) => (repo, None, Some(UpdateErrorPrefix(t) + env.errorText))
      case Ok(rec') =>
        if Clashes(repo, t, i, fields') then
          (repo, None, Some(UpdateErrorPrefix(t) + env.errorText))
        else
          SyncSizeFrameAll(Registry.Record(rec.id, fields', rec.file), repo.disk);
          (WithRows(repo, t, Rows(repo, t)[i := rec']), Some(rec'), None)
  }

  /** A successful save leaves no other row with the saved row's name. */
  lemma FinishNoClash(repo: Repo, env: Env, t: Table, i: nat, rec: Registry.Record, fields: seq<(string, Json.Json)>,
                      newFile: Option<NewFile>, updates: seq<(string, Json.Json)>)
    requires i < |Rows(repo, t)|
    ensures var r := Finish(repo, env, t, i, rec, fields, newFile, updates);
      r.1.Some? && t == Corpora ==> !Registry.NameClash(repo.corpora, i, r.1.value.fields)
  {
    var r := Finish(repo, env, t, i, rec, fields, newFile, updates);
    if r.1.Some? && t == Corpora {
      var fields' := Registry.ApplyUpdates(fields, updates);
      assert Dict.Get(r.1.value.fields, "name") == Dict.Get(fields', "name");
    }
  }

  /** `update_json_corpus` as written: the backup is made and the old file
      removed before the new content is parsed, so an invalid upload is
      reported after the record's file is already gone. */
  function UpdateJsonCorpusAsWritten(repo: Repo, env: Env, id: nat, newFile: Option<NewFile>, createBackup: bool,
                                     updates: seq<(string, Json.Json)>): (r: (Repo, Option<Registry.Record>, Option<string>))
    ensures Find(repo.corpora, id).None? ==> r == (repo, None, Some(NotFoundMessage(Corpora, id)))
    ensures Find(repo.corpora, id).Some? && newFile.Some? && env.parse(newFile.value.content).Err? ==>
      && r.1.None? && r.0.corpora == repo.corpora
      && r.2 == Some(InvalidNewJsonPrefix + env.parse(newFile.value.content).error)
    ensures Find(repo.corpora, id).Some? && (newFile.None? || env.parse(newFile.value.content).Ok?) ==>
      var i := Find(repo.corpora, id).value;
      (r.1.Some? <==> !RenameClashes(repo.corpora, i, updates) &&
                      (newFile.Some? || repo.corpora[i].file == "" || repo.corpora[i].file in Dict.Keys(repo.disk))) &&
      (r.1.None? ==> r.0.corpora == repo.corpora && r.2 == Some(UpdateErrorPrefix(Corpora) + env.errorText))
  {
    match Find(repo.corpora, id)
    case None => (repo, None, Some(NotFoundMessage(Corpora, id)))
    case Some(i) =>
      var rec := repo.corpora[i];
      var repo1 := MaybeBackup(repo, env, Corpora, rec, newFile, createBackup);
      var repo2 := repo1.(disk := DropOld(repo1.disk, rec, newFile));
      match newFile
      case None => Finish(repo2, env, Corpora, i, rec, rec.fields, newFile, updates)
      case Some(f) =>
        match env.parse(f.content)
        case Err(e) => (repo2, None, Some(InvalidNewJsonPrefix + e))
        case Ok(j) =>
          var fields := Dict.Put(rec.fields, "records_count", Json.JInt(Registry.CountRecords(j)));
          CountKeepsName(rec.fields, Registry.CountRecords(j), updates);
          Finish(repo2, env, Corpora, i, rec, fields, newFile, updates)
  }

  /** An invalid upload leaves the record pointing at a file that is no
      longer stored. */
  lemma InvalidUploadLosesFile(repo: Repo, env: Env, i: nat, f: NewFile, createBackup: bool,
                               updates: seq<(string, Json.Json)>)
    requires i < |repo.corpora| && Find(repo.corpora, repo.corpora[i].id) == Some(i)
    requires repo.corpora[i].file != "" && repo.corpora[i].file in Dict.Keys(repo.disk)
    requires env.parse(f.content).Err?
    ensures var r := UpdateJsonCorpusAsWritten(repo, env, repo.corpora[i].id, Some(f), createBackup, updates);
      r.1.None? && r.0.corpora == repo.corpora &&
      repo.corpora[i].file !in Dict.Keys(r.0.disk)
  {
    var rec := repo.corpora[i];
    var repo1 := MaybeBackup(repo, env, Corpora, rec, Some(f), createBackup);
    assert repo1.corpora == repo.corpora;
  }

  /** Whether some stored file holds `content`. */
  predicate Holds(disk: Registry.Disk, content: string) {
    exists p | p in Dict.Keys(disk) :: Dict.Get(disk, p) == Some(content)
  }

  /** Whether the name row `i` takes after `updates` belongs to another row. */
  predicate RenameClashes(corpora: seq<Registry.Record>, i: nat, updates: seq<(string, Json.Json)>)
    requires i < |corpora|
  {
    Registry.NameClash(corpora, i, Registry.ApplyUpdates(corpora[i].fields, updates))
  }

  /** Setting the record count does not change the name the updates leave. */
  lemma CountKeepsName(fields: seq<(string, Json.Json)>, n: int, updates: seq<(string, Json.Json)>)
    ensures Dict.Get(Registry.ApplyUpdates(Dict.Put(fields, "records_count", Json.JInt(n)), updates), "name")
         == Dict.Get(Registry.ApplyUpdates(fields, updates), "name")
  {
    Registry.ApplyUpdatesGet(Dict.Put(fields, "records_count", Json.JInt(n)), updates, "name");
    Registry.ApplyUpdatesGet(fields, updates, "name");
    Dict.PutOther(fields, "records_count", Json.JInt(n), "name");
    Dict.PutKeys(fields, "records_count", Json.JInt(n));
  }

  /** `update_json_corpus` with the new content parsed before anything is
      changed: an unknown id and an invalid upload both leave the repository
      as it was. Otherwise the save succeeds unless the new name is another
      corpus's or, without a new file, the current file is gone; a new
      upload is in storage either way. */
  function UpdateJsonCorpus(repo: Repo, env: Env, id: nat, newFile: Option<NewFile>, createBackup: bool,
                            updates: seq<(string, Json.Json)>): (r: (Repo, Option<Registry.Record>, Option<string>))
    ensures Find(repo.corpora, id).None? ==> r == (repo, None, Some(NotFoundMessage(Corpora, id)))
    ensures newFile.Some? && env.parse(newFile.value.content).Err? ==>
      r == (repo, None, Some(if Find(repo.corpora, id).None? then NotFoundMessage(Corpora, id)
                            else InvalidNewJsonPrefix + env.parse(newFile.value.content).error))
    ensures Find(repo.corpora, id).Some? && (newFile.None? || env.parse(newFile.value.content).Ok?) ==>
      var i := Find(repo.corpora, id).value;
      (r.1.Some? <==> !RenameClashes(repo.corpora, i, updates) &&
                      (newFile.Some? || repo.corpora[i].file == "" || repo.corpora[i].file in Dict.Keys(repo.disk))) &&
      (r.1.None? ==> r.0.corpora == repo.corpora && r.2 == Some(UpdateErrorPrefix(Corpora) + env.errorText)) &&
      (r.1.Some? ==> r.0.corpora == repo.corpora[i := r.1.value]) &&
      (newFile.Some? ==> Holds(r.0.disk, newFile.value.content))
    ensures r.1.Some? ==> r.1.value.id == id && r.0.pdfs == repo.pdfs
    ensures r.1.Some? && newFile.Some? ==>
      Dict.Get(r.0.disk, r.1.value.file) == Some(newFile.value.content)
  {
    match Find(repo.corpora, id)
    case None => (repo, None, Some(NotFoundMessage(Corpora, id)))
    case Some(i) =>
      var rec := repo.corpora[i];
      match newFile
      case None => Finish(repo, env, Corpora, i, rec, rec.fields, newFile, updates)
      case Some(f) =>
        match env.parse(f.content)
        case Err(e) => (repo, None, Some(InvalidNewJsonPrefix + e))
        case Ok(j) =>
          var repo1 := MaybeBackup(repo, env, Corpora, rec, newFile, createBackup);
          var repo2 := repo1.(disk := DropOld(repo1.disk, rec, newFile));
          var fields := Dict.Put(rec.fields, "records_count", Json.JInt(Registry.CountRecords(j)));
          CountKeepsName(rec.fields, Registry.CountRecords(j), updates);
          var out := Finish(repo2, env, Corpora, i, rec, fields, newFile, updates);
          var (_, path) := Store(repo2.disk, CorpusUploadDir, f.name, f.content);
          assert Dict.Get(out.0.disk, path) == Some(f.content);
          out
  }

  /** Updating a corpus keeps corpus names unique. */
  lemma UpdateKeepsNamesUnique(repo: Repo, env: Env, id: nat, newFile: Option<NewFile>, createBackup: bool,
                               updates: seq<(string, Json.Json)>)
    requires Registry.UniqueNames(repo.corpora)
    ensures Registry.UniqueNames(UpdateJsonCorpus(repo, env, id, newFile, createBackup, updates).0.corpora)
  {
    var r := UpdateJsonCorpus(repo, env, id, newFile, createBackup, updates);
    if r.1.Some? {
      var i := Find(repo.corpora, id).value;
      var rec := repo.corpora[i];
      var fields := if newFile.Some? then
        Dict.Put(rec.fields, "records_count", Json.JInt(Registry.CountRecords(env.parse(newFile.value.content).value)))
        else rec.fields;
      if newFile.Some? {
        CountKeepsName(rec.fields, Registry.CountRecords(env.parse(newFile.value.content).value), updates);
      }
      assert Dict.Get(r.1.value.fields, "name") == Dict.Get(Registry.ApplyUpdates(fields, updates), "name");
      assert !Registry.NameClash(repo.corpora, i, r.1.value.fields);
      Registry.ReplaceKeepsUniqueNames(repo.corpora, i, r.1.value);
    }
  }

  /** The counted records survive the attribute updates unless an update
      names `records_count`. */
  lemma UpdateCountKept(fields: seq<(string, Json.Json)>, n: int, updates: seq<(string, Json.Json)>)
    ensures "records_count" !in Dict.Keys(updates) ==>
      Dict.Get(Registry.ApplyUpdates(Dict.Put(fields, "records_count", Json.JInt(n)), updates), "records_count")
        == Some(Json.JInt(n))
  {
    Registry.ApplyUpdatesGet(Dict.Put(fields, "records_count", Json.JInt(n)), updates, "records_count");
  }

  /** `update_pdf_document`: the same steps as the corpus update, except
      that a new file is never rejected; its page count is taken when the
      reader manages to count the pages and otherwise left as it was.
      Document titles are not unique, so a save fails only when, without a
      new file, the current file is gone from storage. */
  function UpdatePdfDocument(repo: Repo, env: Env, id: nat, newFile: Option<NewFile>, createBackup: bool,
                             updates: seq<(string, Json.Json)>): (r: (Repo, Option<Registry.Record>, Option<string>))
    ensures Find(repo.pdfs, id).None? ==> r == (repo, None, Some(NotFoundMessage(Pdfs, id)))
    ensures Find(repo.pdfs, id).Some? ==>
      var i := Find(repo.pdfs, id).value;
      var rec := repo.pdfs[i];
      (r.1.Some? <==> newFile.Some? || rec.file == "" || rec.file in Dict.Keys(repo.disk)) &&
      (r.1.None? ==> r.0.pdfs == repo.pdfs && r.2 == Some(UpdateErrorPrefix(Pdfs) + env.errorText)) &&
      (r.1.Some? ==> r.0.pdfs == repo.pdfs[i := r.1.value] && r.2.None?) &&
      (r.1.Some? ==> forall k | k != "file_size" ::
         Dict.Get(r.1.value.fields, k) == Dict.Get(Registry.ApplyUpdates(PageFields(env, rec, newFile), updates), k))
    ensures r.1.Some? ==> r.1.value.id == id && r.0.corpora == repo.corpora
    ensures r.1.Some? && newFile.Some? ==>
      Dict.Get(r.0.disk, r.1.value.file) == Some(newFile.value.content)
  {
    match Find(repo.pdfs, id)
    case None => (repo, None, Some(NotFoundMessage(Pdfs, id)))
    case Some(i) =>
      var rec := repo.pdfs[i];
      var repo1 := MaybeBackup(repo, env, Pdfs, rec, newFile, createBackup);
      var repo2 := repo1.(disk := DropOld(repo1.disk, rec, newFile));
      Finish(repo2, env, Pdfs, i, rec, PageFields(env, rec, newFile), newFile, updates)
  }

  /** The record's attributes once the new PDF's pages are counted. */
  function PageFields(env: Env, rec: Registry.Record, newFile: Option<NewFile>): (fields: seq<(string, Json.Json)>)
    ensures newFile.Some? && env.pages(newFile.value.content).Some? ==>
      Dict.Get(fields, "page_count") == Some(Json.JInt(env.pages(newFile.value.content).value))
    ensures newFile.None? || env.pages(newFile.value.content).None? ==> fields == rec.fields
  {
    match newFile
    case None => rec.fields
    case Some(f) =>
      match env.pages(f.content)
      case None => rec.fields
      case Some(n) => Dict.Put(rec.fields, "page_count", Json.JInt(n))
  }

  /** Replacing the file of row `i`: a backup holding the replaced file's
      content is added exactly when one is asked for and that file can be
      read, whether or not the row is then saved; no other version changes. */
  lemma ReplaceSteps(repo: Repo, env: Env, t: Table, i: nat, fields: seq<(string, Json.Json)>, f: NewFile,
                     createBackup: bool, updates: seq<(string, Json.Json)>)
    requires i < |Rows(repo, t)|
    ensures var rec := Rows(repo, t)[i];
      var repo1 := MaybeBackup(repo, env, t, rec, Some(f), createBackup);
      var r := Finish(repo1.(disk := DropOld(repo1.disk, rec, Some(f))), env, t, i, rec, fields, Some(f), updates);
      (!createBackup || rec.file == "" || rec.file !in Dict.Keys(repo.disk) ==> r.0.versions == repo.versions) &&
      (createBackup && rec.file != "" && rec.file in Dict.Keys(repo.disk) ==>
        |r.0.versions| == |repo.versions| + 1 && r.0.versions[..|repo.versions|] == repo.versions &&
        var v := r.0.versions[|repo.versions|];
        v == Version(repo.nextId, ContentTypeOf(t), rec.id, Registry.VersionLabel(rec, "1.0"), v.backup,
                     BackupBeforeUpdate, env.now) &&
        Dict.Get(r.0.disk, v.backup) == Dict.Get(repo.disk, rec.file) &&
        v.backup in Dict.Keys(r.0.disk) && (r.1.Some? ==> v.backup != r.1.value.file))
  {
    var rec := Rows(repo, t)[i];
    var repo1 := MaybeBackup(repo, env, t, rec, Some(f), createBackup);
    var disk2 := DropOld(repo1.disk, rec, Some(f));
    var repo2 := repo1.(disk := disk2);
    var r := Finish(repo2, env, t, i, rec, fields, Some(f), updates);
    if createBackup && rec.file != "" && rec.file in Dict.Keys(repo.disk) {
      var b := CreateVersionBackup(repo, env, ContentTypeOf(t), rec.id, rec.file,
                                   Registry.VersionLabel(rec, "1.0"), BackupBeforeUpdate);
      var v := b.1.value;
      assert r.0.versions == repo.versions + [v];
      assert v.backup != rec.file;
      Dict.RemoveGet(repo1.disk, rec.file, v.backup);
      assert Dict.Get(disk2, v.backup) == Dict.Get(repo1.disk, v.backup);
      assert v.backup in Dict.Keys(disk2);
    }
  }

  /** A backup version is created by an update only when a new file is given
      and a backup is asked for, and it holds the replaced file's content;
      it is made before the save, so it stays when a name clash fails it. */
  lemma UpdateBacksUp(repo: Repo, env: Env, id: nat, newFile: Option<NewFile>, createBackup: bool,
                      updates: seq<(string, Json.Json)>)
    requires Find(repo.corpora, id).Some?
    ensures var rec := repo.corpora[Find(repo.corpora, id).value];
      var r := UpdateJsonCorpus(repo, env, id, newFile, createBackup, updates);
      (!(newFile.Some? && createBackup) ==> r.0.versions == repo.versions) &&
      (newFile.Some? && createBackup && env.parse(newFile.value.content).Ok? &&
       rec.file != "" && rec.file in Dict.Keys(repo.disk) ==>
        (r.1.Some? <==> !RenameClashes(repo.corpora, Find(repo.corpora, id).value, updates)) &&
        |r.0.versions| == |repo.versions| + 1 &&
        r.0.versions[|repo.versions|].contentType == Registry.JsonCorpusType &&
        r.0.versions[|repo.versions|].objectId == id &&
        Dict.Get(r.0.disk, r.0.versions[|repo.versions|].backup) == Dict.Get(repo.disk, rec.file))
  {
    if newFile.Some? && env.parse(newFile.value.content).Ok? {
      var i := Find(repo.corpora, id).value;
      var j := env.parse(newFile.value.content).value;
      var fields := Dict.Put(repo.corpora[i].fields, "records_count", Json.JInt(Registry.CountRecords(j)));
      ReplaceSteps(repo, env, Corpora, i, fields, newFile.value, createBackup, updates);
    }
  }

  /** The same for a PDF document. */
  lemma UpdatePdfBacksUp(repo: Repo, env: Env, id: nat, newFile: Option<NewFile>, createBackup: bool,
                         updates: seq<(string, Json.Json)>)
    requires Find(repo.pdfs, id).Some?
    ensures var rec := repo.pdfs[Find(repo.pdfs, id).value];
      var r := UpdatePdfDocument(repo, env, id, newFile, createBackup, updates);
      (!(newFile.Some? && createBackup) ==> r.0.versions == repo.versions) &&
      (newFile.Some? && createBackup && rec.file != "" && rec.file in Dict.Keys(repo.disk) ==>
        |r.0.versions| == |repo.versions| + 1 &&
        r.0.versions[|repo.versions|].contentType == Registry.PdfDocumentType &&
        r.0.versions[|repo.versions|].objectId == id &&
        Dict.Get(r.0.disk, r.0.versions[|repo.versions|].backup) == Dict.Get(repo.disk, rec.file))
  {
    if newFile.Some? {
      var i := Find(repo.pdfs, id).value;
      ReplaceSteps(repo, env, Pdfs, i, PageFields(env, repo.pdfs[i], newFile), newFile.value, createBackup, updates);
    }
  }

  /** After an update, every attribute the record has and an update names
      holds the given value; attributes the record lacks are not added, and
      the rest keep their values (besides the counters the new file sets). */
  lemma UpdateSetsKnownFields(repo: Repo, env: Env, id: nat, newFile: Option<NewFile>, createBackup: bool,
                              updates: seq<(string, Json.Json)>, k: string)
    requires Find(repo.corpora, id).Some?
    requires k != "file_size" && k != "records_count"
    ensures var rec := repo.corpora[Find(repo.corpora, id).value];
      var r := UpdateJsonCorpus(repo, env, id, newFile, createBackup, updates);
      r.1.Some? ==>
        Dict.Get(r.1.value.fields, k) ==
          if k in Dict.Keys(rec.fields) && k in Dict.Keys(updates) then Some(Dict.LastValue(updates, k))
          else Dict.Get(rec.fields, k)
  {
    var i := Find(repo.corpora, id).value;
    var rec := repo.corpora[i];
    if newFile.Some? && env.parse(newFile.value.content).Ok? {
      var j := env.parse(newFile.value.content).value;
      var fields := Dict.Put(rec.fields, "records_count", Json.JInt(Registry.CountRecords(j)));
      Registry.ApplyUpdatesGet(fields, updates, k);
      Dict.PutOther(rec.fields, "records_count", Json.JInt(Registry.CountRecords(j)), k);
      Dict.PutKeys(rec.fields, "records_count", Json.JInt(Registry.CountRecords(j)));
    } else {
      Registry.ApplyUpdatesGet(rec.fields, updates, k);
    }
  }

  /** A well-formed new file is saved unless the new name is taken, and its
      records are counted unless an update overrides the count. */
  lemma UpdateCountsRecords(repo: Repo, env: Env, id: nat, f: NewFile, createBackup: bool,
                            updates: seq<(string, Json.Json)>)
    requires Find(repo.corpora, id).Some? && env.parse(f.content).Ok?
    requires "records_count" !in Dict.Keys(updates)
    ensures var r := UpdateJsonCorpus(repo, env, id, Some(f), createBackup, updates);
      (r.1.Some? <==> !RenameClashes(repo.corpora, Find(repo.corpora, id).value, updates)) &&
      (r.1.Some? ==>
        Dict.Get(r.1.value.fields, "records_count") == Some(Json.JInt(Registry.CountRecords(env.parse(f.content).value))))
  {
    var i := Find(repo.corpora, id).value;
    var n := Registry.CountRecords(env.parse(f.content).value);
    var fields := Dict.Put(repo.corpora[i].fields, "records_count", Json.JInt(n));
    Registry.ApplyUpdatesGet(fields, updates, "records_count");
    ReplaceSteps(repo, env, Corpora, i, fields, f, createBackup, updates);
  }

  // ---------------------------------------------------------------------
  // restore_version
  // ---------------------------------------------------------------------

  function TableOf(contentType: string): (t: Option<Table>)
    ensures t.Some? ==> ContentTypeOf(t.value) == contentType
    ensures t.None? <==> contentType != Registry.JsonCorpusType && contentType != Registry.PdfDocumentType
  {
    if contentType == Registry.JsonCorpusType then Some(Corpora)
    else if contentType == Registry.PdfDocumentType then Some(Pdfs)
    else None
  }

  /** `restore_version`: the record's current file is backed up (when it
      can be read), then the version's copy is stored as the record's file;
      no other row changes. A missing version or
      record gives `(false, msg)`; a backup copy that cannot be read gives
      `(false, msg)` after the safety backup was made; an unknown content
      type gives `(true, None)` with nothing changed. */
  function RestoreVersion(repo: Repo, env: Env, versionId: nat): (r: (Repo, bool, Option<string>))
    ensures FindVersion(repo.versions, versionId).None? ==> r == (repo, false, Some(VersionNotFound))
    ensures FindVersion(repo.versions, versionId).Some? ==>
      var v := repo.versions[FindVersion(repo.versions, versionId).value];
      (TableOf(v.contentType).None? ==> r == (repo, true, None)) &&
      (TableOf(v.contentType).Some? && Find(Rows(repo, TableOf(v.contentType).value), v.objectId).None? ==>
        r == (repo, false, Some(VersionNotFound))) &&
      (TableOf(v.contentType).Some? && Find(Rows(repo, TableOf(v.contentType).value), v.objectId).Some? ==>
        var t := TableOf(v.contentType).value;
        var i := Find(Rows(repo, t), v.objectId).value;
        |Rows(r.0, t)| == |Rows(repo, t)| && i < |Rows(r.0, t)| &&
        RestoreBackup(repo, env, t, i, r.0) &&
        Rows(r.0, t) == Rows(repo, t)[i := Rows(r.0, t)[i]] &&
        (r.1 ==> forall k | k != "file_size" :: Dict.Get(Rows(r.0, t)[i].fields, k) == Dict.Get(Rows(repo, t)[i].fields, k)) &&
        r.0 == WithRows(repo, t, Rows(r.0, t)).(versions := r.0.versions, disk := r.0.disk, nextId := r.0.nextId) &&
        (v.backup in Dict.Keys(repo.disk) ==>
           r.1 && r.2.None? && Dict.Get(r.0.disk, Rows(r.0, t)[i].file) == Dict.Get(repo.disk, v.backup)) &&
        (!r.1 ==> r.2 == Some(RestoreErrorPrefix + env.errorText)))
  {
    match FindVersion(repo.versions, versionId)
    case None => (repo, false, Some(VersionNotFound))
    case Some(vi) =>
      var v := repo.versions[vi];
      match TableOf(v.contentType)
      case None => (repo, true, None)
      case Some(t) =>
        match Find(Rows(repo, t), v.objectId)
        case None => (repo, false, Some(VersionNotFound))
        case Some(i) => RestoreInto(repo, env, t, i, v.backup)
  }

  /** The restore steps once the version and its record are found. The
      record's current file is first copied into a version row labelled
      `BackupBeforeRestore` when it can be read; the version's copy is read
      after that. Only row `i` changes, and of it only the file and
      `file_size`: the other attributes, `records_count` included, are kept
      as they were, whatever the restored content holds. No stored file is
      overwritten. */
  function RestoreInto(repo: Repo, env: Env, t: Table, i: nat, backup: string): (r: (Repo, bool, Option<string>))
    requires i < |Rows(repo, t)|
    ensures |Rows(r.0, t)| == |Rows(repo, t)|
    ensures backup in Dict.Keys(repo.disk) ==> r.1
    ensures r.1 ==> r.2.None? && Rows(r.0, t)[i].id == Rows(repo, t)[i].id
    ensures backup in Dict.Keys(repo.disk) ==> Dict.Get(r.0.disk, Rows(r.0, t)[i].file) == Dict.Get(repo.disk, backup)
    ensures !r.1 ==> r.2 == Some(RestoreErrorPrefix + env.errorText)
    ensures Rows(r.0, t) == Rows(repo, t)[i := Rows(r.0, t)[i]]
    ensures !r.1 ==> Rows(r.0, t) == Rows(repo, t)
    ensures r.0 == WithRows(repo, t, Rows(r.0, t)).(versions := r.0.versions, disk := r.0.disk, nextId := r.0.nextId)
    ensures forall p | p in Dict.Keys(repo.disk) :: Dict.Get(r.0.disk, p) == Dict.Get(repo.disk, p)
    ensures r.1 ==> forall k | k != "file_size" :: Dict.Get(Rows(r.0, t)[i].fields, k) == Dict.Get(Rows(repo, t)[i].fields, k)
    ensures RestoreBackup(repo, env, t, i, r.0)
  {
    var rec := Rows(repo, t)[i];
    var b := CreateVersionBackup(repo, env, ContentTypeOf(t), rec.id, rec.file,
                                 Registry.VersionLabel(rec, "current"), BackupBeforeRestore);
    var repo1 := b.0;
    forall p | p in Dict.Keys(repo.disk) ensures Dict.Get(repo1.disk, p) == Dict.Get(repo.disk, p) {
      BackupKeepsFiles(repo, env, ContentTypeOf(t), rec.id, rec.file,
                       Registry.VersionLabel(rec, "current"), BackupBeforeRestore, p);
    }
    match Dict.Get(repo1.disk, backup)
    case None =>
      (repo1, false, Some(RestoreErrorPrefix + env.errorText))
    case Some(content) =>
      RestoreStored(repo, env, t, i, backup);
      StoreKeeps(repo1.disk, UploadDir(t), Strings.Basename(backup), content);
      var (disk', path) := Store(repo1.disk, UploadDir(t), Strings.Basename(backup), content);
      AttachFrame(rec, path, content);
      (WithRows(repo1, t, Rows(repo1, t)[i := Attach(rec, path, content)]).(disk := disk'), true, None)
  }

  /** The safety backup of `restore_version`, seen in the state `after`:
      when row `i`'s current file can be read, exactly one version is
      appended, for that record, labelled with its version (or "current")
      and `BackupBeforeRestore`, and it holds the file's content; otherwise
      the versions are unchanged. */
  predicate RestoreBackup(repo: Repo, env: Env, t: Table, i: nat, after: Repo)
    requires i < |Rows(repo, t)|
  {
    var rec := Rows(repo, t)[i];
    (rec.file == "" || rec.file !in Dict.Keys(repo.disk) ==>
       after.versions == repo.versions && after.nextId == repo.nextId) &&
    (rec.file != "" && rec.file in Dict.Keys(repo.disk) ==>
       |after.versions| == |repo.versions| + 1 && after.versions[..|repo.versions|] == repo.versions &&
       after.nextId == repo.nextId + 1 &&
       var v := after.versions[|repo.versions|];
       v == Version(repo.nextId, ContentTypeOf(t), rec.id, Registry.VersionLabel(rec, "current"), v.backup,
                    BackupBeforeRestore, env.now) &&
       v.backup !in Dict.Keys(repo.disk) &&
       Dict.Get(after.disk, v.backup) == Dict.Get(repo.disk, rec.file))
  }

  lemma RestoreStored(repo: Repo, env: Env, t: Table, i: nat, backup: string)
    requires i < |Rows(repo, t)|
    ensures var rec := Rows(repo, t)[i];
      var repo1 := CreateVersionBackup(repo, env, ContentTypeOf(t), rec.id, rec.file,
                                       Registry.VersionLabel(rec, "current"), BackupBeforeRestore).0;
      Rows(repo1, t) == Rows(repo, t) &&
      (backup in Dict.Keys(repo.disk) ==> Dict.Get(repo1.disk, backup) == Dict.Get(repo.disk, backup))
  {
    var rec := Rows(repo, t)[i];
    if backup in Dict.Keys(repo.disk) {
      BackupKeepsFiles(repo, env, ContentTypeOf(t), rec.id, rec.file,
                       Registry.VersionLabel(rec, "current"), BackupBeforeRestore, backup);
    }
  }

  // ---------------------------------------------------------------------
  // get_file_versions
  // ---------------------------------------------------------------------

  function VersionOf(contentType: string, objectId: nat): Version -> bool {
    (v: Version) => v.contentType == contentType && v.objectId == objectId
  }

  function Age(v: Version): int {
    -v.createdAt
  }

  /** `get_file_versions`: the versions of one record, newest first. */
  function GetFileVersions(repo: Repo, contentType: string, objectId: nat): (r: seq<Version>)
    ensures forall v | v in r :: v in repo.versions && v.contentType == contentType && v.objectId == objectId
    ensures forall v | v in repo.versions && v.contentType == contentType && v.objectId == objectId :: v in r
    ensures multiset(r) == multiset(Ordering.Filter(repo.versions, VersionOf(contentType, objectId)))
    ensures forall i, j | 0 <= i < j < |r| :: r[i].createdAt >= r[j].createdAt
  {
    var mine := Ordering.Filter(repo.versions, VersionOf(contentType, objectId));
    var r := Ordering.SortBy(mine, Age);
    assert forall v | v in r :: v in mine by {
      forall v | v in r ensures v in mine {
        assert v in multiset(r);
      }
    }
    assert forall v | v in mine :: v in r by {
      forall v | v in mine ensures v in r {
        assert v in multiset(mine);
      }
    }
    r
  }

  /** A backup made at the latest time heads its record's version list. */
  lemma NewestBackupFirst(repo: Repo, env: Env, contentType: string, objectId: nat,
                          file: string, number: string, description: string)
    requires forall v | v in repo.versions :: v.createdAt <= env.now
    requires file != "" && file in Dict.Keys(repo.disk)
    ensures var b := CreateVersionBackup(repo, env, contentType, objectId, file, number, description);
      var vs := GetFileVersions(b.0, contentType, objectId);
      b.1.Some? && b.1.value in vs && |vs| > 0 && vs[0].createdAt == env.now
  {
    var b := CreateVersionBackup(repo, env, contentType, objectId, file, number, description);
    var v := b.1.value;
    var vs := GetFileVersions(b.0, contentType, objectId);
    assert b.0.versions == repo.versions + [v];
    assert v in b.0.versions;
    assert v in vs;
    var k :| 0 <= k < |vs| && vs[k] == v;
    NewestHeads(vs, k, env.now);
    assert vs[0] in b.0.versions;
  }

  lemma NewestHeads(vs: seq<Version>, k: nat, now: int)
    requires k < |vs| && vs[k].createdAt == now
    requires forall i, j | 0 <= i < j < |vs| :: vs[i].createdAt >= vs[j].createdAt
    ensures vs[0].createdAt >= now
  {
    if k > 0 {
      assert vs[0].createdAt >= vs[k].createdAt;
    }
  }

  // ---------------------------------------------------------------------
  // Round trip: update with backup, then restore
  // ---------------------------------------------------------------------

  /** Replacing the row found by id keeps it the one found. */
  lemma {:induction false} FindReplace(rows: seq<Registry.Record>, id: nat, i: nat, x: Registry.Record)
    requires Find(rows, id) == Some(i) && x.id == id
    ensures Find(rows[i := x], id) == Some(i)
  {
    if i > 0 {
      assert rows[i := x][1..] == rows[1..][i - 1 := x];
      FindReplace(rows[1..], id, i - 1, x);
    }
  }

  /** Restoring the version an update backed up brings the replaced file's
      content back as the record's file, whether or not the update's save
      went through. */
  lemma UpdateThenRestore(repo: Repo, env: Env, env2: Env, i: nat, f: NewFile, updates: seq<(string, Json.Json)>)
    requires Valid(repo)
    requires i < |repo.corpora| && Find(repo.corpora, repo.corpora[i].id) == Some(i)
    requires repo.corpora[i].file != "" && repo.corpora[i].file in Dict.Keys(repo.disk)
    requires env.parse(f.content).Ok?
    ensures var r1 := UpdateJsonCorpus(repo, env, repo.corpora[i].id, Some(f), true, updates).0;
      var r2 := RestoreVersion(r1, env2, repo.nextId);
      r2.1 && r2.2.None? && i < |r2.0.corpora| &&
      Dict.Get(r2.0.disk, r2.0.corpora[i].file) == Dict.Get(repo.disk, repo.corpora[i].file)
  {
    var rec := repo.corpora[i];
    var id := rec.id;
    var j := env.parse(f.content).value;
    var fields := Dict.Put(rec.fields, "records_count", Json.JInt(Registry.CountRecords(j)));
    ReplaceSteps(repo, env, Corpora, i, fields, f, true, updates);
    var u := UpdateJsonCorpus(repo, env, id, Some(f), true, updates);
    var r1 := u.0;
    var v := r1.versions[|repo.versions|];
    assert r1.versions == repo.versions + [v];
    assert v.id == repo.nextId;
    FindVersionLast(repo.versions, v);
    assert TableOf(v.contentType) == Some(Corpora);
    assert v.objectId == id;
    if u.1.Some? {
      assert r1.corpora == repo.corpora[i := u.1.value];
      FindReplace(repo.corpora, id, i, u.1.value);
    } else {
      assert r1.corpora == repo.corpora;
    }
  }
}
