/** The admin site (`myapp/admin.py`): the list-column helpers that shorten
    text, the colour badges, and the bulk backup action. */
module Admin {
  import opened Wrappers
  import Strings
  import Dict
  import Ordering
  import Registry
  import FileManager

  const PreviewLength: nat := 50
  const SessionKeyLength: nat := 8
  const Ellipsis := "..."
  const NoError := "-"

  // ---------------------------------------------------------------------
  // Text columns
  // ---------------------------------------------------------------------

  /** `content_preview`: text longer than 50 characters is cut to 50 and
      marked with an ellipsis. */
  function ContentPreview(content: string): (r: string)
    ensures |content| <= PreviewLength ==> r == content
    ensures |content| > PreviewLength ==>
      |r| == PreviewLength + |Ellipsis| && r[..PreviewLength] == content[..PreviewLength] &&
      Strings.EndsWith(r, Ellipsis)
  {
    if |content| > PreviewLength then Strings.Take(content, PreviewLength) + Ellipsis else content
  }

  /** The preview leaves a text as it is exactly when the text is short, or
      is itself 50 characters followed by an ellipsis. */
  lemma PreviewFixedPoint(content: string)
    ensures ContentPreview(content) == content <==>
      |content| <= PreviewLength ||
      (|content| == PreviewLength + |Ellipsis| && Strings.EndsWith(content, Ellipsis))
  {
    if |content| == PreviewLength + |Ellipsis| && Strings.EndsWith(content, Ellipsis) {
      var r := ContentPreview(content);
      assert r[PreviewLength..] == Ellipsis == content[PreviewLength..];
      assert r == r[..PreviewLength] + r[PreviewLength..];
      assert content == content[..PreviewLength] + content[PreviewLength..];
    }
  }

  /** `session_key_short`: the first eight characters and an ellipsis. */
  function SessionKeyShort(key: string): (r: string)
    ensures |r| == (if |key| < SessionKeyLength then |key| else SessionKeyLength) + |Ellipsis|
    ensures Strings.StartsWith(key, r[..|r| - |Ellipsis|]) && Strings.EndsWith(r, Ellipsis)
  {
    Strings.Take(key, SessionKeyLength) + Ellipsis
  }

  /** Two session keys that share their first eight characters are shown
      alike. */
  lemma SessionKeyShortPrefix(a: string, b: string)
    requires |a| >= SessionKeyLength && |b| >= SessionKeyLength
    ensures SessionKeyShort(a) == SessionKeyShort(b) <==> a[..SessionKeyLength] == b[..SessionKeyLength]
  {
    if SessionKeyShort(a) == SessionKeyShort(b) {
      assert SessionKeyShort(a)[..SessionKeyLength] == SessionKeyShort(b)[..SessionKeyLength];
    }
  }

  /** `error_preview`: a dash when the scraping run left no error message
      (`None` or empty), otherwise the message cut like a content preview. */
  function ErrorPreview(error: Option<string>): (r: string)
    ensures error.None? || error.value == "" ==> r == NoError
    ensures error.Some? && error.value != "" ==> r == ContentPreview(error.value)
  {
    match error
    case Some(e) => if e != "" then ContentPreview(e) else NoError
    case None => NoError
  }

  /** A dash is shown exactly for a missing or empty message, or for the
      message "-" itself. */
  lemma ErrorPreviewDash(error: Option<string>)
    ensures ErrorPreview(error) == NoError <==> error.None? || error.value == "" || error.value == NoError
  {
  }

  // ---------------------------------------------------------------------
  // Badges
  // ---------------------------------------------------------------------

  const FallbackColour := "#6c757d"

  const CorpusColours: seq<(string, string)> := [
    ("becas", "#28a745"), ("faqs", "#17a2b8"), ("general", "#6c757d"), ("custom", "#ffc107")
  ]

  const DocumentColours: seq<(string, string)> := [
    ("report", "#007bff"), ("guide", "#28a745"), ("manual", "#17a2b8"),
    ("regulations", "#dc3545"), ("form", "#ffc107"), ("other", "#6c757d")
  ]

  const StatusColours: seq<(string, string)> := [
    ("draft", "#6c757d"), ("published", "#28a745"), ("archived", "#ffc107")
  ]

  /** `colors.get(value, '#6c757d')` */
  function Colour(colours: seq<(string, string)>, value: string): (r: string)
    ensures value in Dict.Keys(colours) ==> Dict.Get(colours, value) == Some(r)
    ensures value !in Dict.Keys(colours) ==> r == FallbackColour
  {
    Dict.Get(colours, value).GetOr(FallbackColour)
  }

  /** Each colour table names exactly the choices of the model field it
      decorates, so only values outside the choices fall back to grey. */
  lemma ColourTablesMatchChoices()
    ensures Dict.Keys(CorpusColours) == Dict.Keys(Registry.CorpusTypes)
    ensures Dict.Keys(DocumentColours) == Dict.Keys(Registry.DocumentTypes)
    ensures Dict.Keys(StatusColours) == Dict.Keys(Registry.StatusChoices)
  {
  }

  /** In a table without repeated keys, a value is shown grey exactly when it
      is missing or its own entry is grey. */
  lemma ColourGrey(colours: seq<(string, string)>, value: string)
    requires Dict.DistinctKeys(colours)
    ensures Colour(colours, value) == FallbackColour <==>
      value !in Dict.Keys(colours) ||
      exists i | 0 <= i < |colours| :: colours[i].0 == value && colours[i].1 == FallbackColour
  {
    if value in Dict.Keys(colours) {
      var i :| 0 <= i < |colours| && Dict.Keys(colours)[i] == value;
      Dict.GetAt(colours, i);
      assert Colour(colours, value) == colours[i].1;
      if colours[i].1 == FallbackColour {
        assert colours[i].0 == value;
      } else {
        forall j | 0 <= j < |colours| && colours[j].0 == value ensures colours[j].1 != FallbackColour {
          assert j == i;
        }
      }
    }
  }

  /** Entry `g` is the only grey entry of the table. */
  predicate OnlyGrey(colours: seq<(string, string)>, g: nat) {
    g < |colours| && colours[g].1 == FallbackColour &&
    forall j | 0 <= j < |colours| && j != g :: colours[j].1 != FallbackColour
  }

  lemma ColourGreyAt(colours: seq<(string, string)>, value: string, g: nat)
    requires Dict.DistinctKeys(colours) && OnlyGrey(colours, g)
    ensures Colour(colours, value) == FallbackColour <==> value !in Dict.Keys(colours) || value == colours[g].0
  {
    ColourGrey(colours, value);
    if value == colours[g].0 {
      assert Dict.Keys(colours)[g] == value;
    }
  }

  lemma TablesDistinct()
    ensures Dict.DistinctKeys(CorpusColours) && OnlyGrey(CorpusColours, 2)
    ensures Dict.DistinctKeys(StatusColours) && OnlyGrey(StatusColours, 0)
    ensures Dict.DistinctKeys(DocumentColours) && OnlyGrey(DocumentColours, 5)
  {
  }

  /** A corpus badge is grey exactly for the "general" type and for values
      outside the corpus types. */
  lemma CorpusBadgeGrey(corpusType: string)
    ensures Colour(CorpusColours, corpusType) == FallbackColour <==>
      corpusType == "general" || corpusType !in Dict.Keys(Registry.CorpusTypes)
  {
    ColourTablesMatchChoices();
    TablesDistinct();
    ColourGreyAt(CorpusColours, corpusType, 2);
  }

  /** A status badge is grey exactly for drafts and unknown statuses. */
  lemma StatusBadgeGrey(status: string)
    ensures Colour(StatusColours, status) == FallbackColour <==>
      status == "draft" || status !in Dict.Keys(Registry.StatusChoices)
  {
    ColourTablesMatchChoices();
    TablesDistinct();
    ColourGreyAt(StatusColours, status, 0);
  }

  /** A document-type badge is grey exactly for "other" and unknown types. */
  lemma DocumentBadgeGrey(documentType: string)
    ensures Colour(DocumentColours, documentType) == FallbackColour <==>
      documentType == "other" || documentType !in Dict.Keys(Registry.DocumentTypes)
  {
    ColourTablesMatchChoices();
    TablesDistinct();
    ColourGreyAt(DocumentColours, documentType, 5);
  }

  datatype Badge = JsonBadge | PdfBadge

  /** `content_type_badge`: JSON for corpus versions, PDF for anything else. */
  function ContentTypeBadge(contentType: string): (r: Badge)
    ensures r == JsonBadge <==> contentType == Registry.JsonCorpusType
  {
    if contentType == Registry.JsonCorpusType then JsonBadge else PdfBadge
  }

  /** The badge tells the two version tables apart. */
  lemma ContentTypeBadgeTables()
    ensures ContentTypeBadge(FileManager.ContentTypeOf(FileManager.Corpora)) == JsonBadge
    ensures ContentTypeBadge(FileManager.ContentTypeOf(FileManager.Pdfs)) == PdfBadge
  {
  }

  // ---------------------------------------------------------------------
  // create_backup_version action
  // ---------------------------------------------------------------------

  const ManualBackupDescription := "Backup manual desde admin"
  const BackupLabel := "backup"

  /** A version the action creates: of the given table, for one of the
      selected rows, labelled with its version or "backup". */
  ghost predicate ManualBackupOf(v: FileManager.Version, contentType: string, selected: seq<Registry.Record>, now: int) {
    v.contentType == contentType && v.description == ManualBackupDescription && v.createdAt == now &&
    exists r | r in selected :: v.objectId == r.id && v.number == Registry.VersionLabel(r, BackupLabel)
  }

  /** Some version in `vs` is the manual backup of `r` made at `now`. */
  predicate HasBackup(vs: seq<FileManager.Version>, contentType: string, r: Registry.Record, now: int) {
    exists v | v in vs ::
      v.contentType == contentType && v.objectId == r.id && v.number == Registry.VersionLabel(r, BackupLabel) &&
      v.description == ManualBackupDescription && v.createdAt == now
  }

  predicate Stored(disk: Registry.Disk, r: Registry.Record) {
    r.file != "" && r.file in Dict.Keys(disk)
  }

  function StoredIn(disk: Registry.Disk): Registry.Record -> bool {
    (r: Registry.Record) => Stored(disk, r)
  }

  /** The bulk action: a backup for each selected row, counting those that
      were created. Every selected row whose file is stored gets one; the
      tables and the stored files are left as they were. */
  method CreateBackupVersions(repo: FileManager.Repo, env: FileManager.Env, contentType: string,
                              selected: seq<Registry.Record>)
    returns (repo': FileManager.Repo, created: nat)
    ensures created <= |selected|
    ensures |repo'.versions| == |repo.versions| + created && repo'.versions[..|repo.versions|] == repo.versions
    ensures forall v | v in repo'.versions[|repo.versions|..] :: ManualBackupOf(v, contentType, selected, env.now)
    ensures created >= |Ordering.Filter(selected, StoredIn(repo.disk))|
    ensures forall k | 0 <= k < |selected| && Stored(repo.disk, selected[k]) ::
      HasBackup(repo'.versions[|repo.versions|..], contentType, selected[k], env.now)
    ensures repo'.corpora == repo.corpora && repo'.pdfs == repo.pdfs
    ensures forall p | p in Dict.Keys(repo.disk) :: Dict.Get(repo'.disk, p) == Dict.Get(repo.disk, p)
  {
    repo' := repo;
    created := 0;
    var i := 0;
    while i < |selected|
      invariant Progress(repo, env, contentType, selected, i, repo', created)
    {
      var rec := selected[i];
      ProgressStep(repo, env, contentType, selected, i, repo', created);
      var (next, version) := FileManager.CreateVersionBackup(repo', env, contentType, rec.id, rec.file,
                                                             Registry.VersionLabel(rec, BackupLabel),
                                                             ManualBackupDescription);
      repo' := next;
      if version.Some? {
        created := created + 1;
      }
      i := i + 1;
    }
    assert selected[..i] == selected;
  }

  /** The state after the action has handled the first `i` selected rows. */
  ghost predicate Progress(repo: FileManager.Repo, env: FileManager.Env, contentType: string,
                           selected: seq<Registry.Record>, i: nat, cur: FileManager.Repo, created: nat) {
    i <= |selected| && created <= i &&
    |cur.versions| == |repo.versions| + created && cur.versions[..|repo.versions|] == repo.versions &&
    (forall v | v in cur.versions[|repo.versions|..] :: ManualBackupOf(v, contentType, selected, env.now)) &&
    created >= |Ordering.Filter(selected[..i], StoredIn(repo.disk))| &&
    (forall k | 0 <= k < i && Stored(repo.disk, selected[k]) ::
       HasBackup(cur.versions[|repo.versions|..], contentType, selected[k], env.now)) &&
    cur.corpora == repo.corpora && cur.pdfs == repo.pdfs &&
    (forall p | p in Dict.Keys(repo.disk) :: Dict.Get(cur.disk, p) == Dict.Get(repo.disk, p))
  }

  /** Handling row `i` keeps the action's progress. */
  lemma ProgressStep(repo: FileManager.Repo, env: FileManager.Env, contentType: string,
                     selected: seq<Registry.Record>, i: nat, cur: FileManager.Repo, created: nat)
    requires i < |selected| && Progress(repo, env, contentType, selected, i, cur, created)
    ensures var r := FileManager.CreateVersionBackup(cur, env, contentType, selected[i].id, selected[i].file,
                                                     Registry.VersionLabel(selected[i], BackupLabel),
                                                     ManualBackupDescription);
      Progress(repo, env, contentType, selected, i + 1, r.0, if r.1.Some? then created + 1 else created)
  {
    var rec := selected[i];
    BackupKeepsOriginal(repo.disk, cur, env, contentType, rec);
    BackupAppends(repo.versions, cur, env, contentType, selected, i);
    BackupRecordsStep(repo.versions, repo.disk, cur, env, contentType, selected, i);
    FilterSnoc(selected, i, StoredIn(repo.disk));
  }

  /** Appending versions keeps every backup already recorded. */
  lemma BackupKeepsRecorded(before: seq<FileManager.Version>, after: seq<FileManager.Version>, base: nat,
                            contentType: string, selected: seq<Registry.Record>, i: nat, now: int)
    requires base <= |before| <= |after| && after[..|before|] == before
    ensures forall k | 0 <= k < i && k < |selected| && HasBackup(before[base..], contentType, selected[k], now) ::
      HasBackup(after[base..], contentType, selected[k], now)
  {
    forall k | 0 <= k < i && k < |selected| && HasBackup(before[base..], contentType, selected[k], now)
      ensures HasBackup(after[base..], contentType, selected[k], now)
    {
      var r := selected[k];
      var v :| v in before[base..] && v.contentType == contentType && v.objectId == r.id &&
        v.number == Registry.VersionLabel(r, BackupLabel) && v.description == ManualBackupDescription && v.createdAt == now;
      var j :| 0 <= j < |before[base..]| && before[base..][j] == v;
      assert after[base..][j] == v;
    }
  }

  /** One step of the action: the rows before `i` keep their backups, and
      row `i` gets one when its file was stored. */
  lemma BackupRecordsStep(versions0: seq<FileManager.Version>, disk0: Registry.Disk, cur: FileManager.Repo,
                          env: FileManager.Env, contentType: string, selected: seq<Registry.Record>, i: nat)
    requires i < |selected|
    requires |versions0| <= |cur.versions| && cur.versions[..|versions0|] == versions0
    requires forall p | p in Dict.Keys(disk0) :: Dict.Get(cur.disk, p) == Dict.Get(disk0, p)
    requires forall k | 0 <= k < i && Stored(disk0, selected[k]) ::
      HasBackup(cur.versions[|versions0|..], contentType, selected[k], env.now)
    ensures var r := FileManager.CreateVersionBackup(cur, env, contentType, selected[i].id, selected[i].file,
                                                     Registry.VersionLabel(selected[i], BackupLabel),
                                                     ManualBackupDescription);
      forall k | 0 <= k < i + 1 && Stored(disk0, selected[k]) ::
        HasBackup(r.0.versions[|versions0|..], contentType, selected[k], env.now)
  {
    var rec := selected[i];
    var r := FileManager.CreateVersionBackup(cur, env, contentType, rec.id, rec.file,
                                             Registry.VersionLabel(rec, BackupLabel), ManualBackupDescription);
    BackupKeepsRecorded(cur.versions, r.0.versions, |versions0|, contentType, selected, i, env.now);
    BackupKeepsOriginal(disk0, cur, env, contentType, rec);
    forall k | 0 <= k < i + 1 && Stored(disk0, selected[k])
      ensures HasBackup(r.0.versions[|versions0|..], contentType, selected[k], env.now)
    {
      if k == i {
        BackupOfRow(cur, env, contentType, rec, |versions0|);
      }
    }
  }

  /** Backing up a row whose file is stored records its manual backup. */
  lemma BackupOfRow(cur: FileManager.Repo, env: FileManager.Env, contentType: string, rec: Registry.Record, base: nat)
    requires base <= |cur.versions| && Stored(cur.disk, rec)
    ensures HasBackup(FileManager.CreateVersionBackup(cur, env, contentType, rec.id, rec.file,
                                                      Registry.VersionLabel(rec, BackupLabel),
                                                      ManualBackupDescription).0.versions[base..],
                      contentType, rec, env.now)
  {
    var r := FileManager.CreateVersionBackup(cur, env, contentType, rec.id, rec.file,
                                             Registry.VersionLabel(rec, BackupLabel), ManualBackupDescription);
    var v := r.1.value;
    assert r.0.versions[base..][|cur.versions| - base] == v;
  }

  /** A backup keeps the files that were stored before the action. */
  lemma BackupKeepsOriginal(disk0: Registry.Disk, cur: FileManager.Repo, env: FileManager.Env, contentType: string,
                            rec: Registry.Record)
    requires forall p | p in Dict.Keys(disk0) :: Dict.Get(cur.disk, p) == Dict.Get(disk0, p)
    ensures var r := FileManager.CreateVersionBackup(cur, env, contentType, rec.id, rec.file,
                                                     Registry.VersionLabel(rec, BackupLabel), ManualBackupDescription);
      (forall p | p in Dict.Keys(disk0) :: Dict.Get(r.0.disk, p) == Dict.Get(disk0, p)) &&
      (StoredIn(disk0)(rec) ==> r.1.Some?)
  {
    var tag := Registry.VersionLabel(rec, BackupLabel);
    forall p | p in Dict.Keys(disk0)
      ensures Dict.Get(FileManager.CreateVersionBackup(cur, env, contentType, rec.id, rec.file, tag,
                                                       ManualBackupDescription).0.disk, p) == Dict.Get(disk0, p)
    {
      assert Dict.Get(cur.disk, p) == Dict.Get(disk0, p);
      assert p in Dict.Keys(cur.disk);
      FileManager.BackupKeepsFiles(cur, env, contentType, rec.id, rec.file, tag, ManualBackupDescription, p);
    }
    if StoredIn(disk0)(rec) {
      assert Dict.Get(cur.disk, rec.file) == Dict.Get(disk0, rec.file);
    }
  }

  /** A backup appends at most one version, and it is a manual backup of a
      selected row. */
  lemma BackupAppends(versions0: seq<FileManager.Version>, cur: FileManager.Repo, env: FileManager.Env,
                      contentType: string, selected: seq<Registry.Record>, i: nat)
    requires i < |selected|
    requires |versions0| <= |cur.versions| && cur.versions[..|versions0|] == versions0
    requires forall v | v in cur.versions[|versions0|..] :: ManualBackupOf(v, contentType, selected, env.now)
    ensures var r := FileManager.CreateVersionBackup(cur, env, contentType, selected[i].id, selected[i].file,
                                                     Registry.VersionLabel(selected[i], BackupLabel),
                                                     ManualBackupDescription);
      |r.0.versions| == |cur.versions| + (if r.1.Some? then 1 else 0) &&
      r.0.versions[..|versions0|] == versions0 &&
      (forall v | v in r.0.versions[|versions0|..] :: ManualBackupOf(v, contentType, selected, env.now)) &&
      r.0.corpora == cur.corpora && r.0.pdfs == cur.pdfs
  {
    var rec := selected[i];
    var r := FileManager.CreateVersionBackup(cur, env, contentType, rec.id, rec.file,
                                             Registry.VersionLabel(rec, BackupLabel), ManualBackupDescription);
    if r.1.Some? {
      assert r.0.versions[|versions0|..] == cur.versions[|versions0|..] + [r.1.value];
      assert rec in selected;
      assert ManualBackupOf(r.1.value, contentType, selected, env.now);
    }
  }

  lemma FilterSnoc(s: seq<Registry.Record>, i: nat, p: Registry.Record -> bool)
    requires i < |s|
    ensures Ordering.Filter(s[..i + 1], p) == Ordering.Filter(s[..i], p) + (if p(s[i]) then [s[i]] else [])
  {
    assert s[..i + 1] == s[..i] + [s[i]];
    Ordering.FilterAppend(s[..i], [s[i]], p);
  }
}
